/** Items as the item store keeps them, and the three list operations its
    actions apply to the local list: `findIndex` by `_id`, replacement of the
    found entry by the server's updated item, and `filter` by `_id`. */
module ItemLists {
  import opened Wrappers

  /** The backend's `_id` of an item. */
  type Id = string

  /** The server-defined fields of an item other than `_id`, `stock` and
      `lowStock` (name, price, image path, ...). The store never inspects
      them; an object spread copies them through unchanged. */
  type OtherFields = map<string, string>

  datatype Item = Item(id: Id, stock: int, lowStock: bool, others: OtherFields)

  /** An item is low on stock when its stock is at most this many units. */
  const LowStockLimit: int := 5

  /** `{ ...updated, lowStock: updated.stock <= 5 }`: the server's item with
      its low-stock flag recomputed and every other field copied. */
  function Refreshed(updated: Item): (r: Item)
    ensures r.id == updated.id && r.stock == updated.stock && r.others == updated.others
    ensures r.lowStock <==> updated.stock <= LowStockLimit
  {
    updated.(lowStock := updated.stock <= LowStockLimit)
  }

  /** The position `findIndex((i) => i._id === id)` finds: the first entry
      with that `_id`, or none when no entry has it. */
  function FirstIndex(s: seq<Item>, id: Id): (r: Option<nat>)
    ensures r.Some? ==> r.value < |s| && s[r.value].id == id
    ensures r.Some? ==> forall j :: 0 <= j < r.value ==> s[j].id != id
    ensures r.None? ==> forall j :: 0 <= j < |s| ==> s[j].id != id
  {
    if s == [] then None
    else if s[0].id == id then Some(0)
    else match FirstIndex(s[1..], id)
      case None => None
      case Some(k) => Some(k + 1)
  }

  /** `Array.prototype.findIndex` with `_id` equality: a left-to-right scan
      that answers the first matching position, or -1. */
  method FindIndex(s: seq<Item>, id: Id) returns (index: int)
    ensures -1 <= index < |s|
    ensures index == -1 <==> FirstIndex(s, id).None?
    ensures index != -1 ==> FirstIndex(s, id) == Some(index)
  {
    index := 0;
    while index < |s|
      invariant 0 <= index <= |s|
      invariant forall j :: 0 <= j < index ==> s[j].id != id
    {
      if s[index].id == id {
        return;
      }
      index := index + 1;
    }
    index := -1;
  }

  /** The list after a successful edit of `id` whose response carried
      `updated`: the first entry with that `_id` becomes the refreshed
      server item; when there is none, the list is left as it was. */
  function Edited(s: seq<Item>, id: Id, updated: Item): (r: seq<Item>)
    ensures |r| == |s|
    ensures FirstIndex(s, id).None? ==> r == s
    ensures FirstIndex(s, id).Some? ==> r[FirstIndex(s, id).value] == Refreshed(updated)
    ensures forall j :: 0 <= j < |s| && FirstIndex(s, id) != Some(j) ==> r[j] == s[j]
  {
    match FirstIndex(s, id)
    case None => s
    case Some(k) => s[k := Refreshed(updated)]
  }

  /** `s.filter((i) => i._id !== id)`. */
  function Without(s: seq<Item>, id: Id): (r: seq<Item>)
    ensures |r| <= |s|
    ensures forall j :: 0 <= j < |r| ==> r[j].id != id
    ensures forall j :: 0 <= j < |r| ==> r[j] in s
  {
    if s == [] then []
    else if s[0].id == id then Without(s[1..], id)
    else [s[0]] + Without(s[1..], id)
  }

  /** `t` is `s` with zero or more entries dropped, the rest kept in order. */
  ghost predicate IsSubsequence<T>(t: seq<T>, s: seq<T>)
    decreases |s|
  {
    t == [] || (s != [] && ((t[0] == s[0] && IsSubsequence(t[1..], s[1..])) || IsSubsequence(t, s[1..])))
  }

  /** The local mirror holds at most one entry per `_id`: what the backend
      promises, and what the store does not check. */
  ghost predicate UniqueIds(s: seq<Item>)
  {
    forall i, j :: 0 <= i < j < |s| ==> s[i].id != s[j].id
  }

  /** A subsequence holds no more copies of any entry than the whole. */
  lemma {:induction false} SubsequenceMultiset<T>(t: seq<T>, s: seq<T>)
    requires IsSubsequence(t, s)
    ensures multiset(t) <= multiset(s)
    decreases |s|
  {
    if t == [] {
    } else if t[0] == s[0] && IsSubsequence(t[1..], s[1..]) {
      SubsequenceMultiset(t[1..], s[1..]);
      assert t == [t[0]] + t[1..];
      assert s == [s[0]] + s[1..];
    } else {
      SubsequenceMultiset(t, s[1..]);
      assert s == [s[0]] + s[1..];
    }
  }

  /** The filter keeps the surviving entries in their original relative order. */
  lemma {:induction false} WithoutIsSubsequence(s: seq<Item>, id: Id)
    ensures IsSubsequence(Without(s, id), s)
  {
    if s != [] {
      WithoutIsSubsequence(s[1..], id);
      if s[0].id != id {
        var r := Without(s, id);
        assert r[0] == s[0] && r[1..] == Without(s[1..], id);
      } else {
        assert Without(s, id) == Without(s[1..], id);
      }
    }
  }

  /** The filter keeps every copy of every entry whose `_id` differs from `id`. */
  lemma {:induction false} WithoutKeepsOthers(s: seq<Item>, id: Id, x: Item)
    requires x.id != id
    ensures multiset(Without(s, id))[x] == multiset(s)[x]
  {
    if s != [] {
      WithoutKeepsOthers(s[1..], id, x);
      assert s == [s[0]] + s[1..];
      if s[0].id != id {
        assert Without(s, id) == [s[0]] + Without(s[1..], id);
      }
    }
  }

  /** The filter's result is the only list that drops every entry with `_id`
      `id`, keeps every other entry, and keeps the original order: any `t`
      with those three properties is `Without(s, id)`. */
  lemma {:induction false} WithoutCharacterised(s: seq<Item>, id: Id, t: seq<Item>)
    requires IsSubsequence(t, s)
    requires forall j :: 0 <= j < |t| ==> t[j].id != id
    requires forall x: Item :: x.id != id ==> multiset(t)[x] == multiset(s)[x]
    ensures t == Without(s, id)
    decreases |s|
  {
    if s == [] {
    } else {
      assert s == [s[0]] + s[1..];
      forall x: Item | x.id != id
        ensures multiset(s)[x] == multiset([s[0]])[x] + multiset(s[1..])[x]
      {
      }
      if t != [] && t[0] == s[0] && IsSubsequence(t[1..], s[1..]) {
        assert t == [t[0]] + t[1..];
        assert s[0].id != id by { assert t[0].id != id; }
        forall x: Item | x.id != id
          ensures multiset(t[1..])[x] == multiset(s[1..])[x]
        {
          assert multiset(t)[x] == multiset([t[0]])[x] + multiset(t[1..])[x];
        }
        forall j | 0 <= j < |t[1..]|
          ensures t[1..][j].id != id
        {
          assert t[1..][j] == t[j + 1];
        }
        WithoutCharacterised(s[1..], id, t[1..]);
      } else {
        if t == [] {
          assert IsSubsequence(t, s[1..]);
        }
        assert IsSubsequence(t, s[1..]);
        if s[0].id != id {
          SubsequenceMultiset(t, s[1..]);
          assert false;
        }
        WithoutCharacterised(s[1..], id, t);
      }
    }
  }

  /** Filtering leaves the list exactly as it was if and only if no entry has
      the `_id`. */
  lemma {:induction false} WithoutIdentity(s: seq<Item>, id: Id)
    ensures Without(s, id) == s <==> FirstIndex(s, id).None?
  {
    if FirstIndex(s, id).None? {
      WithoutUnmatched(s, id);
    } else {
      var k := FirstIndex(s, id).value;
      assert s[k].id == id;
    }
  }

  lemma {:induction false} WithoutUnmatched(s: seq<Item>, id: Id)
    requires forall j :: 0 <= j < |s| ==> s[j].id != id
    ensures Without(s, id) == s
  {
    if s != [] {
      WithoutUnmatched(s[1..], id);
      assert s == [s[0]] + s[1..];
    }
  }

  /** Deleting twice is deleting once. */
  lemma WithoutIdempotent(s: seq<Item>, id: Id)
    ensures Without(Without(s, id), id) == Without(s, id)
  {
    WithoutUnmatched(Without(s, id), id);
  }

  /** Filtering distributes over concatenation. */
  lemma {:induction false} WithoutConcat(a: seq<Item>, b: seq<Item>, id: Id)
    ensures Without(a + b, id) == Without(a, id) + Without(b, id)
  {
    if a == [] {
      assert a + b == b;
    } else {
      var ab := a + b;
      assert ab[0] == a[0];
      assert ab[1..] == a[1..] + b;
      WithoutConcat(a[1..], b, id);
    }
  }

  /** When `_id`s are unique and `id` is present, the filter removes exactly
      the one entry at its position. */
  lemma WithoutUnique(s: seq<Item>, id: Id)
    requires UniqueIds(s)
    requires FirstIndex(s, id).Some?
    ensures Without(s, id) == s[..FirstIndex(s, id).value] + s[FirstIndex(s, id).value + 1..]
    ensures |Without(s, id)| == |s| - 1
  {
    var k := FirstIndex(s, id).value;
    assert s == s[..k] + ([s[k]] + s[k + 1..]);
    WithoutConcat(s[..k], [s[k]] + s[k + 1..], id);
    WithoutConcat([s[k]], s[k + 1..], id);
    WithoutUnmatched(s[..k], id);
    var later := s[k + 1..];
    forall j | 0 <= j < |later|
      ensures later[j].id != id
    {
      assert later[j] == s[k + 1 + j];
    }
    WithoutUnmatched(later, id);
    assert Without([s[k]], id) == Without([], id);
  }

  /** Deleting keeps `_id`s unique. */
  lemma {:induction false} WithoutKeepsUnique(s: seq<Item>, id: Id)
    requires UniqueIds(s)
    ensures UniqueIds(Without(s, id))
  {
    if s != [] {
      assert UniqueIds(s[1..]) by {
        forall i, j | 0 <= i < j < |s[1..]|
          ensures s[1..][i].id != s[1..][j].id
        {
          assert s[1..][i] == s[i + 1] && s[1..][j] == s[j + 1];
        }
      }
      WithoutKeepsUnique(s[1..], id);
      if s[0].id != id {
        var rest := Without(s[1..], id);
        forall j | 0 <= j < |rest|
          ensures rest[j].id != s[0].id
        {
          assert rest[j] in s[1..];
          var m :| 0 <= m < |s[1..]| && s[1..][m] == rest[j];
          assert s[m + 1] == rest[j];
        }
        var r := [s[0]] + rest;
        forall i, j | 0 <= i < j < |r|
          ensures r[i].id != r[j].id
        {
          assert r[j] == rest[j - 1];
          if i > 0 {
            assert r[i] == rest[i - 1];
          }
        }
      }
    }
  }

  /** An edit that the server answers with the same `_id` keeps `_id`s unique. */
  lemma EditedKeepsUnique(s: seq<Item>, id: Id, updated: Item)
    requires UniqueIds(s)
    requires updated.id == id
    ensures UniqueIds(Edited(s, id, updated))
  {
    var r := Edited(s, id, updated);
    if FirstIndex(s, id).Some? {
      var k := FirstIndex(s, id).value;
      forall i, j | 0 <= i < j < |r|
        ensures r[i].id != r[j].id
      {
        if i == k {
          assert s[j].id != s[k].id;
        } else if j == k {
          assert s[i].id != s[k].id;
        } else {
          assert s[i].id != s[j].id;
        }
      }
    }
  }

  /** Replacing a matching entry by another matching entry does not change
      what the filter keeps. */
  lemma {:induction false} WithoutReplaceMatching(s: seq<Item>, k: nat, v: Item, id: Id)
    requires k < |s| && s[k].id == id && v.id == id
    ensures Without(s[k := v], id) == Without(s, id)
  {
    if k > 0 {
      WithoutReplaceMatching(s[1..], k - 1, v, id);
      assert s[k := v][1..] == s[1..][k - 1 := v];
    } else {
      assert s[k := v][1..] == s[1..];
    }
  }

  /** Editing an entry and then deleting its `_id` leaves what deleting alone
      would, as long as the server keeps the `_id`. */
  lemma WithoutAfterEdited(s: seq<Item>, id: Id, updated: Item)
    requires updated.id == id
    ensures Without(Edited(s, id, updated), id) == Without(s, id)
  {
    if FirstIndex(s, id).Some? {
      WithoutReplaceMatching(s, FirstIndex(s, id).value, Refreshed(updated), id);
    }
  }

  /** Adding an item whose `_id` is new and then deleting that `_id` gives
      back the list from before the add. */
  lemma AppendThenWithout(s: seq<Item>, item: Item)
    requires FirstIndex(s, item.id).None?
    ensures Without(s + [item], item.id) == s
  {
    WithoutConcat(s, [item], item.id);
    WithoutUnmatched(s, item.id);
    assert Without([item], item.id) == Without([], item.id);
  }

  /** Appending an item whose `_id` is new keeps `_id`s unique. */
  lemma AppendKeepsUnique(s: seq<Item>, item: Item)
    requires UniqueIds(s)
    requires FirstIndex(s, item.id).None?
    ensures UniqueIds(s + [item])
  {
  }
}
