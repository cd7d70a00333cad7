/** `components/BookmarkList.tsx`: the reducers that apply realtime INSERT, DELETE and
    UPDATE payloads and `handleDeleted` to the in-memory list, and the list's view. */
module BookmarkList {
  import opened Wrappers
  import opened Types

  /** `prev.find((b) => b.id === id)` finds an entry. */
  predicate HasId(bs: seq<Bookmark>, id: string) {
    exists i :: 0 <= i < |bs| && bs[i].id == id
  }

  /** No two entries share an id: the list never shows the same bookmark twice. */
  predicate DistinctIds(bs: seq<Bookmark>) {
    forall i, j :: 0 <= i < j < |bs| ==> bs[i].id != bs[j].id
  }

  /** How many entries carry `id`. */
  function CountId(bs: seq<Bookmark>, id: string): (n: nat)
    ensures n == 0 <==> !HasId(bs, id)
    ensures n <= |bs|
  {
    if bs == [] then 0
    else
      assert forall i :: 0 < i < |bs| ==> bs[i] == bs[1..][i - 1];
      (if bs[0].id == id then 1 else 0) + CountId(bs[1..], id)
  }

  /** The ids of the entries, in list order. */
  function Ids(bs: seq<Bookmark>): (r: seq<string>)
    ensures |r| == |bs| && forall i :: 0 <= i < |bs| ==> r[i] == bs[i].id
  {
    if bs == [] then [] else [bs[0].id] + Ids(bs[1..])
  }

  /** In a list with distinct ids, an id that is present occurs exactly once. */
  lemma {:induction false} CountIdDistinct(bs: seq<Bookmark>, id: string)
    requires DistinctIds(bs) && HasId(bs, id)
    ensures CountId(bs, id) == 1
  {
    if bs[0].id == id {
      assert !HasId(bs[1..], id) by {
        forall i | 0 <= i < |bs[1..]|
          ensures bs[1..][i].id != id
        {
          assert bs[1..][i] == bs[i + 1];
        }
      }
    } else {
      var i :| 0 <= i < |bs| && bs[i].id == id;
      assert bs[1..][i - 1] == bs[i];
      CountIdDistinct(bs[1..], id);
    }
  }

  /** The INSERT reducer: a record whose id is already listed is ignored (a local add or
      an earlier delivery got there first), any other record is put in front. */
  function InsertOnce(prev: seq<Bookmark>, b: Bookmark): (r: seq<Bookmark>)
    ensures HasId(prev, b.id) ==> r == prev
    ensures !HasId(prev, b.id) ==> |r| == |prev| + 1 && r[0] == b && r[1..] == prev
    ensures HasId(r, b.id)
  {
    if HasId(prev, b.id) then prev else [b] + prev
  }

  /** The DELETE reducer and `handleDeleted`: `prev.filter((b) => b.id !== id)`. No entry
      with the id survives, every other entry does, and nothing new appears. */
  function Delete(prev: seq<Bookmark>, id: string): (r: seq<Bookmark>)
    ensures !HasId(r, id)
    ensures forall b :: b in r ==> b in prev
    ensures forall b :: b in prev && b.id != id ==> b in r
    ensures |r| == |prev| - CountId(prev, id)
  {
    if prev == [] then []
    else
      var rest := Delete(prev[1..], id);
      assert forall b :: b in prev ==> b == prev[0] || b in prev[1..];
      if prev[0].id == id then rest else [prev[0]] + rest
  }

  /** The UPDATE reducer: `prev.map((b) => b.id === u.id ? u : b)`. Matching entries are
      replaced where they stand; every other entry is kept. */
  function Update(prev: seq<Bookmark>, u: Bookmark): (r: seq<Bookmark>)
    ensures |r| == |prev|
    ensures forall i :: 0 <= i < |prev| && prev[i].id == u.id ==> r[i] == u
    ensures forall i :: 0 <= i < |prev| && prev[i].id != u.id ==> r[i] == prev[i]
  {
    if prev == [] then [] else [if prev[0].id == u.id then u else prev[0]] + Update(prev[1..], u)
  }

  /** The payload of a change on the user's rows; a DELETE carries only the old row's id. */
  datatype Change = Inserted(record: Bookmark) | Deleted(oldId: string) | Updated(record: Bookmark)

  /** The id a change is about. */
  function ChangedId(change: Change): string {
    match change
    case Inserted(b) => b.id
    case Deleted(id) => id
    case Updated(u) => u.id
  }

  /** The realtime callback: one reducer per event type. Afterwards an inserted id is
      listed, a deleted id is not, and an updated id is listed exactly when it was before;
      no entry with another id is ever lost. */
  function ApplyChange(prev: seq<Bookmark>, change: Change): (r: seq<Bookmark>)
    ensures change.Inserted? ==> HasId(r, change.record.id)
    ensures change.Deleted? ==> !HasId(r, change.oldId) && |r| <= |prev|
    ensures change.Updated? ==> |r| == |prev| && (HasId(r, change.record.id) <==> HasId(prev, change.record.id))
    ensures forall b :: b in prev && b.id != ChangedId(change) ==> b in r
  {
    match change
    case Inserted(b) =>
      var r := InsertOnce(prev, b);
      assert forall x :: x in prev ==> x in r by {
        if !HasId(prev, b.id) {
          assert r == [b] + prev;
        }
      }
      r
    case Deleted(id) => Delete(prev, id)
    case Updated(u) =>
      var r := Update(prev, u);
      UpdateKeepsOthers(prev, u);
      UpdateListsSameId(prev, u);
      r
  }

  lemma UpdateKeepsOthers(prev: seq<Bookmark>, u: Bookmark)
    ensures forall b :: b in prev && b.id != u.id ==> b in Update(prev, u)
  {
    var r := Update(prev, u);
    forall b | b in prev && b.id != u.id
      ensures b in r
    {
      var i :| 0 <= i < |prev| && prev[i] == b;
      assert r[i] == b;
    }
  }

  lemma UpdateListsSameId(prev: seq<Bookmark>, u: Bookmark)
    ensures HasId(Update(prev, u), u.id) <==> HasId(prev, u.id)
  {
    var r := Update(prev, u);
    if HasId(prev, u.id) {
      var i :| 0 <= i < |prev| && prev[i].id == u.id;
      assert r[i].id == u.id;
    }
    if HasId(r, u.id) {
      var i :| 0 <= i < |r| && r[i].id == u.id;
      assert prev[i].id == u.id;
    }
  }

  /** `handleDeleted`, which a card calls once its row is gone, removes exactly what a
      realtime DELETE of the same id removes. */
  function HandleDeleted(prev: seq<Bookmark>, id: string): (r: seq<Bookmark>)
    ensures r == ApplyChange(prev, Deleted(id))
    ensures !HasId(r, id)
  {
    Delete(prev, id)
  }

  /** Delivering the same INSERT twice is the same as delivering it once. */
  lemma InsertIdempotent(prev: seq<Bookmark>, b: Bookmark)
    ensures InsertOnce(InsertOnce(prev, b), b) == InsertOnce(prev, b)
  {
  }

  /** A DELETE for an id that is not listed changes nothing. */
  lemma {:induction false} DeleteAbsent(prev: seq<Bookmark>, id: string)
    requires !HasId(prev, id)
    ensures Delete(prev, id) == prev
  {
    if prev != [] {
      assert !HasId(prev[1..], id) by {
        forall i | 0 <= i < |prev[1..]|
          ensures prev[1..][i].id != id
        {
          assert prev[1..][i] == prev[i + 1];
        }
      }
      DeleteAbsent(prev[1..], id);
    }
  }

  /** Deleting twice is deleting once, whichever path (`handleDeleted` or the realtime
      DELETE) each deletion came from. */
  lemma DeleteIdempotent(prev: seq<Bookmark>, id: string)
    ensures HandleDeleted(ApplyChange(prev, Deleted(id)), id) == ApplyChange(prev, Deleted(id))
    ensures ApplyChange(HandleDeleted(prev, id), Deleted(id)) == HandleDeleted(prev, id)
  {
    DeleteAbsent(Delete(prev, id), id);
  }

  /** DELETE keeps the surviving entries in their original relative order: it acts on
      each part of a list separately. */
  lemma DeleteDistributes(a: seq<Bookmark>, b: seq<Bookmark>, id: string)
    ensures Delete(a + b, id) == Delete(a, id) + Delete(b, id)
  {
    DeleteIsKeep(a + b, id);
    DeleteIsKeep(a, id);
    DeleteIsKeep(b, id);
    KeepDistributes(a, b, id);
  }

  /** The filter alone, without the contract `Delete` carries. */
  function Keep(prev: seq<Bookmark>, id: string): seq<Bookmark> {
    if prev == [] then []
    else if prev[0].id == id then Keep(prev[1..], id)
    else [prev[0]] + Keep(prev[1..], id)
  }

  lemma {:induction false} DeleteIsKeep(prev: seq<Bookmark>, id: string)
    ensures Delete(prev, id) == Keep(prev, id)
  {
    if prev != [] {
      DeleteIsKeep(prev[1..], id);
    }
  }

  lemma {:induction false} KeepDistributes(a: seq<Bookmark>, b: seq<Bookmark>, id: string)
    ensures Keep(a + b, id) == Keep(a, id) + Keep(b, id)
  {
    if a == [] {
      assert a + b == b;
    } else {
      assert (a + b)[0] == a[0];
      assert (a + b)[1..] == a[1..] + b;
      KeepDistributes(a[1..], b, id);
      if a[0].id != id {
        assert [a[0]] + (Keep(a[1..], id) + Keep(b, id)) == [a[0]] + Keep(a[1..], id) + Keep(b, id);
      }
    }
  }

  /** Deleting the id of an entry that is the only one with its id removes just that entry. */
  lemma DeleteSingle(before: seq<Bookmark>, x: Bookmark, after: seq<Bookmark>)
    requires !HasId(before, x.id) && !HasId(after, x.id)
    ensures Delete(before + [x] + after, x.id) == before + after
  {
    assert [x][1..] == [];
    assert Delete([x], x.id) == [];
    DeleteAbsent(before, x.id);
    DeleteAbsent(after, x.id);
    DeleteDistributes(before, [x], x.id);
    assert Delete(before + [x], x.id) == before + [];
    assert before + [] == before;
    DeleteDistributes(before + [x], after, x.id);
  }

  /** An UPDATE for an id that is not listed changes nothing: UPDATE never inserts. */
  lemma UpdateAbsent(prev: seq<Bookmark>, u: Bookmark)
    requires !HasId(prev, u.id)
    ensures Update(prev, u) == prev
  {
  }

  /** UPDATE keeps the length and the sequence of ids. */
  lemma UpdateKeepsIds(prev: seq<Bookmark>, u: Bookmark)
    ensures Ids(Update(prev, u)) == Ids(prev)
  {
  }

  /** Every reducer keeps the ids pairwise distinct. */
  lemma ApplyPreservesDistinct(prev: seq<Bookmark>, change: Change)
    requires DistinctIds(prev)
    ensures DistinctIds(ApplyChange(prev, change))
  {
    match change
    case Inserted(b) =>
    case Deleted(id) => DeletePreservesDistinct(prev, id);
    case Updated(u) => UpdateKeepsIds(prev, u);
  }

  lemma {:induction false} DeletePreservesDistinct(prev: seq<Bookmark>, id: string)
    requires DistinctIds(prev)
    ensures DistinctIds(Delete(prev, id))
  {
    if prev != [] {
      DeletePreservesDistinct(prev[1..], id);
      var rest := Delete(prev[1..], id);
      if prev[0].id != id {
        FirstIdNotInTail(prev);
        NoIdInSublist(rest, prev[1..], prev[0].id);
        ConsDistinct(prev[0], rest);
      }
    }
  }

  lemma FirstIdNotInTail(bs: seq<Bookmark>)
    requires bs != [] && DistinctIds(bs)
    ensures !HasId(bs[1..], bs[0].id)
  {
    forall k | 0 <= k < |bs[1..]|
      ensures bs[1..][k].id != bs[0].id
    {
      assert bs[1..][k] == bs[k + 1];
    }
  }

  lemma NoIdInSublist(sub: seq<Bookmark>, bs: seq<Bookmark>, id: string)
    requires forall b :: b in sub ==> b in bs
    requires !HasId(bs, id)
    ensures !HasId(sub, id)
  {
    forall k | 0 <= k < |sub|
      ensures sub[k].id != id
    {
      assert sub[k] in bs;
    }
  }

  lemma ConsDistinct(x: Bookmark, rest: seq<Bookmark>)
    requires DistinctIds(rest) && !HasId(rest, x.id)
    ensures DistinctIds([x] + rest)
  {
    var s := [x] + rest;
    forall i, j | 0 <= i < j < |s|
      ensures s[i].id != s[j].id
    {
      assert s[j] == rest[j - 1];
      if i > 0 {
        assert s[i] == rest[i - 1];
      }
    }
  }

  /** A DELETE and an INSERT of another id commute: their delivery order is irrelevant. */
  lemma InsertDeleteCommute(prev: seq<Bookmark>, b: Bookmark, id: string)
    requires b.id != id
    ensures ApplyChange(ApplyChange(prev, Inserted(b)), Deleted(id))
         == ApplyChange(ApplyChange(prev, Deleted(id)), Inserted(b))
  {
    var d := Delete(prev, id);
    assert HasId(d, b.id) <==> HasId(prev, b.id) by {
      if HasId(prev, b.id) {
        var i :| 0 <= i < |prev| && prev[i].id == b.id;
        assert prev[i] in d;
      }
      if HasId(d, b.id) {
        var i :| 0 <= i < |d| && d[i].id == b.id;
        assert d[i] in prev;
      }
    }
    if !HasId(prev, b.id) {
      assert ([b] + prev)[1..] == prev;
    }
  }

  /** A DELETE that overtakes its INSERT does not stop the later INSERT from listing the
      record: the accepted eventual-consistency gap of out-of-order delivery. */
  lemma DeleteBeforeInsert(prev: seq<Bookmark>, b: Bookmark)
    ensures ApplyChange(ApplyChange(prev, Deleted(b.id)), Inserted(b)) == [b] + Delete(prev, b.id)
  {
  }

  /** What the list renders: the empty state, or one card per entry in list order, with
      the "n bookmarks" footer only for more than five entries. */
  datatype ListView = EmptyState | Cards(cards: seq<Bookmark>, footerCount: Option<nat>)

  function View(bs: seq<Bookmark>): (v: ListView)
    ensures v.EmptyState? <==> |bs| == 0
    ensures v.Cards? ==> v.cards == bs
    ensures v.Cards? ==> (v.footerCount.Some? <==> |bs| > 5)
    ensures v.Cards? && v.footerCount.Some? ==> v.footerCount.value == |bs|
  {
    if |bs| == 0 then EmptyState
    else Cards(bs, if |bs| > 5 then Some(|bs|) else None)
  }
}
