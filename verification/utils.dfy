/** `lib/utils.ts`: URL normalisation, domain extraction, relative-time labels and truncation. */
module Utils {
  import opened Wrappers
  import opened Strings
  import opened Numerals

  /** The parts of a parsed URL the code reads: `protocol` (the scheme followed by ":"),
      `hostname`, and the serialisation that `toString()` returns. */
  datatype ParsedUrl = ParsedUrl(protocol: string, hostname: string, href: string)

  /** `new URL(s)`: the basic URL parser of section 4.4 of the WHATWG URL Standard, with
      the serializer of section 4.5 supplying `href`; `None` where the constructor throws.
      Its internals are not modelled, so every property below holds for any parser that
      meets the property's stated preconditions. */
  type UrlParser = string -> Option<ParsedUrl>

  const HttpsScheme: string := "https://"

  predicate IsWebProtocol(protocol: string) {
    protocol == "http:" || protocol == "https:"
  }

  /** `validateAndNormalizeUrl`: the trimmed input is parsed as given; a parse with a
      protocol other than http/https is refused outright, and only a failed parse is
      retried with "https://" in front. */
  function NormalizeUrl(parse: UrlParser, input: string): (r: Option<string>)
    ensures parse(Trim(input)).Some? ==>
      r == (if IsWebProtocol(parse(Trim(input)).value.protocol) then Some(parse(Trim(input)).value.href) else None)
    ensures parse(Trim(input)).None? ==>
      r == (if parse(HttpsScheme + Trim(input)).Some? then Some(parse(HttpsScheme + Trim(input)).value.href) else None)
  {
    var trimmed := Trim(input);
    match parse(trimmed)
    case Some(url) => if IsWebProtocol(url.protocol) then Some(url.href) else None
    case None =>
      match parse(HttpsScheme + trimmed)
      case Some(url) => Some(url.href)
      case None => None
  }

  /** White space around the input never changes the outcome. */
  lemma NormalizeIgnoresPadding(parse: UrlParser, a: string, s: string, b: string)
    requires AllSpace(a) && AllSpace(b)
    ensures NormalizeUrl(parse, a + s + b) == NormalizeUrl(parse, s)
  {
    TrimAbsorbsPadding(a, s, b);
  }

  /** Once the trimmed input parses, what the parser would make of the "https://"
      retry is irrelevant: two parsers that agree on the trimmed input agree on the result. */
  lemma NormalizeNoRetryAfterParse(parse: UrlParser, other: UrlParser, input: string)
    requires parse(Trim(input)).Some?
    requires other(Trim(input)) == parse(Trim(input))
    ensures NormalizeUrl(parse, input) == NormalizeUrl(other, input)
  {
  }

  /** Every accepted URL is the serialisation of an http or https parse: either of the
      trimmed input, or of the "https://" retry, given that a parser reading a string
      that starts with "https://" reports the https protocol. */
  lemma NormalizedIsWebParse(parse: UrlParser, input: string)
    requires parse(HttpsScheme + Trim(input)).Some? ==> parse(HttpsScheme + Trim(input)).value.protocol == "https:"
    requires NormalizeUrl(parse, input).Some?
    ensures exists candidate ::
      && (candidate == Trim(input) || candidate == HttpsScheme + Trim(input))
      && parse(candidate).Some?
      && IsWebProtocol(parse(candidate).value.protocol)
      && NormalizeUrl(parse, input).value == parse(candidate).value.href
  {
    if parse(Trim(input)).None? {
      var candidate := HttpsScheme + Trim(input);
      assert parse(candidate).Some?;
    }
  }

  /** `getDomain`: the hostname of the URL, or the input itself when it does not parse. */
  function GetDomain(parse: UrlParser, url: string): (r: string)
    ensures parse(url).Some? ==> r == parse(url).value.hostname
    ensures parse(url).None? ==> r == url
  {
    match parse(url)
    case Some(u) => u.hostname
    case None => url
  }

  /** The URL Standard's promise for one input: when `s` parses, its serialisation parses
      back to the same URL. */
  predicate Reparses(parse: UrlParser, s: string) {
    parse(s).Some? ==> parse(parse(s).value.href) == parse(s)
  }

  /** Normalising an already normalised URL changes nothing, given the URL Standard's
      promise that a serialisation re-parses to the same URL (`Reparses`), the parser's
      reading of "https://" as the https protocol, and a serialisation without surrounding
      white space. That the result has a web protocol is derived, not assumed. */
  lemma NormalizeIdempotent(parse: UrlParser, input: string)
    requires NormalizeUrl(parse, input).Some?
    requires Reparses(parse, Trim(input)) && Reparses(parse, HttpsScheme + Trim(input))
    requires parse(HttpsScheme + Trim(input)).Some? ==> parse(HttpsScheme + Trim(input)).value.protocol == "https:"
    requires IsTrimmed(NormalizeUrl(parse, input).value)
    ensures NormalizeUrl(parse, NormalizeUrl(parse, input).value) == NormalizeUrl(parse, input)
  {
    var u := NormalizeUrl(parse, input).value;
    assert [] + u + [] == u;
    TrimOfPadded([], u, []);
  }

  /** The domain shown for a stored URL is the hostname of the parse the normaliser
      accepted; the fallback to the raw string is never taken for it. */
  lemma DomainOfNormalized(parse: UrlParser, input: string)
    requires NormalizeUrl(parse, input).Some?
    requires Reparses(parse, Trim(input)) && Reparses(parse, HttpsScheme + Trim(input))
    ensures var accepted := if parse(Trim(input)).Some? then Trim(input) else HttpsScheme + Trim(input);
      var u := NormalizeUrl(parse, input).value;
      && parse(accepted).Some? && u == parse(accepted).value.href
      && parse(u).Some?
      && GetDomain(parse, u) == parse(accepted).value.hostname
  {
  }

  /** The bucket `formatRelativeTime` puts an elapsed time into. */
  datatype Age = JustNow | MinutesAgo(minutes: nat) | HoursAgo(hours: nat) | DaysAgo(days: nat) | Older

  const MsPerMinute: int := 60_000
  const MsPerHour: int := 3_600_000
  const MsPerDay: int := 86_400_000
  const MsPerWeek: int := 604_800_000

  /** The cascade of floored quotients in `formatRelativeTime`. `Math.floor(x / k)` for a
      positive `k` is Dafny's `x / k` on integers, negative `x` included. Each bucket is
      characterised by the elapsed milliseconds directly. */
  function AgeOf(elapsedMs: int): (r: Age)
    ensures r.JustNow? <==> elapsedMs < MsPerMinute
    ensures r.MinutesAgo? <==> MsPerMinute <= elapsedMs < MsPerHour
    ensures r.HoursAgo? <==> MsPerHour <= elapsedMs < MsPerDay
    ensures r.DaysAgo? <==> MsPerDay <= elapsedMs < MsPerWeek
    ensures r.Older? <==> MsPerWeek <= elapsedMs
    ensures r.MinutesAgo? ==> r.minutes == elapsedMs / MsPerMinute && 1 <= r.minutes <= 59
    ensures r.HoursAgo? ==> r.hours == elapsedMs / MsPerHour && 1 <= r.hours <= 23
    ensures r.DaysAgo? ==> r.days == elapsedMs / MsPerDay && 1 <= r.days <= 6
  {
    var seconds := elapsedMs / 1000;
    var minutes := seconds / 60;
    var hours := minutes / 60;
    var days := hours / 24;
    if seconds < 60 then JustNow
    else if minutes < 60 then MinutesAgo(minutes)
    else if hours < 24 then HoursAgo(hours)
    else if days < 7 then DaysAgo(days)
    else Older
  }

  /** The label of a bucket; `localeDate` stands for `toLocaleDateString`, which is not modelled. */
  function Describe(age: Age, localeDate: string): string {
    match age
    case JustNow => "just now"
    case MinutesAgo(n) => NatToString(n) + "m ago"
    case HoursAgo(n) => NatToString(n) + "h ago"
    case DaysAgo(n) => NatToString(n) + "d ago"
    case Older => localeDate
  }

  /** `formatRelativeTime`, with the clock reading `now` and the parsed `created_at` given
      as milliseconds since the epoch. A date in the future reads "just now". */
  function FormatRelativeTime(now: int, date: int, localeDate: string): (r: string)
    ensures now - date < MsPerMinute ==> r == "just now"
    ensures MsPerMinute <= now - date < MsPerHour ==>
      1 <= (now - date) / MsPerMinute <= 59 && r == NatToString((now - date) / MsPerMinute) + "m ago"
    ensures MsPerHour <= now - date < MsPerDay ==>
      1 <= (now - date) / MsPerHour <= 23 && r == NatToString((now - date) / MsPerHour) + "h ago"
    ensures MsPerDay <= now - date < MsPerWeek ==>
      1 <= (now - date) / MsPerDay <= 6 && r == NatToString((now - date) / MsPerDay) + "d ago"
    ensures MsPerWeek <= now - date ==> r == localeDate
  {
    Describe(AgeOf(now - date), localeDate)
  }

  /** Distinct recent ages get distinct labels: a label other than the locale date
      determines its bucket and its count. */
  lemma DescribeInjective(a1: Age, a2: Age, localeDate: string)
    requires !a1.Older? && !a2.Older?
    requires Describe(a1, localeDate) == Describe(a2, localeDate)
    ensures a1 == a2
  {
    if a1.JustNow? || a2.JustNow? {
      CountedEndsInO(a1, localeDate);
      CountedEndsInO(a2, localeDate);
    } else {
      CountedShape(a1, localeDate);
      CountedShape(a2, localeDate);
      UnitAgoCancel(NatToString(CountOf(a1)), UnitOf(a1), NatToString(CountOf(a2)), UnitOf(a2));
      NatToStringInjective(CountOf(a1), CountOf(a2));
    }
  }

  /** The unit letter of a counted bucket. */
  function UnitOf(age: Age): char {
    match age
    case MinutesAgo(_) => 'm'
    case HoursAgo(_) => 'h'
    case _ => 'd'
  }

  /** The count of a counted bucket. */
  function CountOf(age: Age): nat {
    match age
    case MinutesAgo(n) => n
    case HoursAgo(n) => n
    case DaysAgo(n) => n
    case _ => 0
  }

  lemma CountedShape(age: Age, localeDate: string)
    requires age.MinutesAgo? || age.HoursAgo? || age.DaysAgo?
    ensures Describe(age, localeDate) == NatToString(CountOf(age)) + ([UnitOf(age)] + " ago")
  {
  }

  /** "just now" ends in 'w', every counted label in 'o'. */
  lemma CountedEndsInO(age: Age, localeDate: string)
    requires !age.Older?
    ensures var s := Describe(age, localeDate);
      |s| > 0 && s[|s| - 1] == (if age.JustNow? then 'w' else 'o')
  {
    if !age.JustNow? {
      CountedShape(age, localeDate);
    }
  }

  lemma UnitAgoCancel(x: string, c: char, y: string, d: char)
    requires x + ([c] + " ago") == y + ([d] + " ago")
    ensures x == y && c == d
  {
    var s := x + ([c] + " ago");
    assert s[|s| - 5] == c;
    assert s[|s| - 5] == d;
    SuffixCancel(x, y, [c] + " ago");
  }

  const Ellipsis: char := '\U{2026}'

  /** `truncate`: strings within the limit are returned whole, longer ones are cut to
      `maxLength` characters and marked with an ellipsis. */
  function Truncate(s: string, maxLength: nat): (r: string)
    ensures |s| <= maxLength ==> r == s
    ensures |s| > maxLength ==> |r| == maxLength + 1 && r[..maxLength] == s[..maxLength] && r[maxLength] == Ellipsis
    ensures |r| <= maxLength + 1
  {
    if |s| <= maxLength then s else s[..maxLength] + [Ellipsis]
  }

  /** Truncating an already truncated string changes nothing. */
  lemma TruncateIdempotent(s: string, maxLength: nat)
    ensures Truncate(Truncate(s, maxLength), maxLength) == Truncate(s, maxLength)
  {
  }
}
