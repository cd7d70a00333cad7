/** `components/Header.tsx`: the name shown for the signed-in user, the initials in the
    avatar, and the menu toggle. */
module Header {
  import opened Wrappers
  import opened Strings
  import opened Types

  /** JavaScript truthiness of an optional string: present and not empty. */
  predicate Truthy(o: Option<string>) {
    o.Some? && o.value != ""
  }

  function FullName(user: User): Option<string> {
    if user.user_metadata.Some? then user.user_metadata.value.full_name else None
  }

  function GivenName(user: User): Option<string> {
    if user.user_metadata.Some? then user.user_metadata.value.name else None
  }

  /** `user.email?.split("@")[0]`. */
  function EmailLocalPart(user: User): Option<string> {
    if user.email.Some? then Some(Split(user.email.value, '@')[0]) else None
  }

  /** `full_name || name || email.split("@")[0] || "User"`: the first of these that is
      a non-empty string. The result is never empty. */
  function DisplayName(user: User): (r: string)
    ensures r != ""
    ensures Truthy(FullName(user)) ==> r == FullName(user).value
    ensures !Truthy(FullName(user)) && Truthy(GivenName(user)) ==> r == GivenName(user).value
    ensures !Truthy(FullName(user)) && !Truthy(GivenName(user)) && Truthy(EmailLocalPart(user)) ==>
      r == EmailLocalPart(user).value
    ensures !Truthy(FullName(user)) && !Truthy(GivenName(user)) && !Truthy(EmailLocalPart(user)) ==> r == "User"
  {
    if Truthy(FullName(user)) then FullName(user).value
    else if Truthy(GivenName(user)) then GivenName(user).value
    else if Truthy(EmailLocalPart(user)) then EmailLocalPart(user).value
    else "User"
  }

  /** Without a usable name, the display name is the e-mail address up to its first "@"
      (the whole address when it has none), unless that text is empty. */
  lemma DisplayNameFromEmail(user: User)
    requires !Truthy(FullName(user)) && !Truthy(GivenName(user)) && user.email.Some?
    ensures var e := user.email.value;
      var r := DisplayName(user);
      r == "User" || (
        && |r| <= |e|
        && r == e[..|r|]
        && '@' !in r
        && (|r| == |e| || e[|r|] == '@'))
  {
    SplitHead(user.email.value, '@');
  }

  /** `words.map((n) => n[0]).join("")`: the first character of each word; an empty
      word's `n[0]` is `undefined`, which `join` renders as nothing. */
  function FirstChars(words: seq<string>): string {
    if words == [] then []
    else (if words[0] == [] then [] else [words[0][0]]) + FirstChars(words[1..])
  }

  /** An independent reading of the same letters: every character that is not a space
      and is either the first character or follows a space. */
  function WordStarts(s: string, afterSpace: bool): string {
    if s == [] then []
    else (if s[0] != ' ' && afterSpace then [s[0]] else []) + WordStarts(s[1..], s[0] == ' ')
  }

  lemma {:induction false} FirstCharsOfSplit(s: string)
    ensures FirstChars(Split(s, ' ')) == WordStarts(s, true)
    decreases |s|, 1
  {
    if s != [] {
      var rest := Split(s[1..], ' ');
      if s[0] == ' ' {
        assert ([[]] + rest)[1..] == rest;
        FirstCharsOfSplit(s[1..]);
      } else {
        var parts := [[s[0]] + rest[0]] + rest[1..];
        assert parts[1..] == rest[1..];
        FirstCharsOfSplitTail(s[1..]);
      }
    }
  }

  lemma {:induction false} FirstCharsOfSplitTail(s: string)
    ensures FirstChars(Split(s, ' ')[1..]) == WordStarts(s, false)
    decreases |s|, 0
  {
    if s != [] {
      var rest := Split(s[1..], ' ');
      if s[0] == ' ' {
        assert ([[]] + rest)[1..] == rest;
        FirstCharsOfSplit(s[1..]);
      } else {
        var parts := [[s[0]] + rest[0]] + rest[1..];
        assert parts[1..] == rest[1..];
        FirstCharsOfSplitTail(s[1..]);
      }
    }
  }

  /** Empty words, from leading, trailing or repeated spaces, add nothing to the initials. */
  lemma {:induction false} EmptyWordsAddNothing(before: seq<string>, after: seq<string>)
    ensures FirstChars(before + [[]] + after) == FirstChars(before) + FirstChars(after)
  {
    if before == [] {
      assert ([] + [[]] + after)[1..] == after;
    } else {
      assert (before + [[]] + after)[1..] == before[1..] + [[]] + after;
      EmptyWordsAddNothing(before[1..], after);
    }
  }

  const MaxInitials: nat := 2

  /** `initials`: the upper-cased first letters of the space-separated words of the name,
      cut to two. Stated through `WordStarts`, which does not split. */
  function Initials(name: string): (r: string)
    ensures |r| <= MaxInitials
    ensures var starts := ToUpper(WordStarts(name, true));
      r == if |starts| <= MaxInitials then starts else starts[..MaxInitials]
  {
    FirstCharsOfSplit(name);
    var letters := ToUpper(FirstChars(Split(name, ' ')));
    if |letters| <= MaxInitials then letters else letters[..MaxInitials]
  }

  /** The user-menu button flips `isMenuOpen`. */
  function ToggleMenu(isMenuOpen: bool): (r: bool)
    ensures r != isMenuOpen
  {
    !isMenuOpen
  }
}
