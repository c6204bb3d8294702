/** The `multimap<double, Tweet*>` that holds a tweet's accepted neighbours.
    Tweets live in an arena and are named by `Id`; the multimap is a sequence of
    (distance, id) entries kept in ascending key order, equal keys allowed. */
module Multimap {

  type Id = nat
  type Entry = (real, Id)

  /** Entries are in ascending key order. */
  ghost predicate Sorted(s: seq<Entry>) {
    forall i, j :: 0 <= i < j < |s| ==> s[i].0 <= s[j].0
  }

  /** The tweets the multimap refers to. */
  function Ids(s: seq<Entry>): set<Id> {
    set k | 0 <= k < |s| :: s[k].1
  }

  /** No tweet is referred to twice. */
  ghost predicate NoDupIds(s: seq<Entry>) {
    forall i, j :: 0 <= i < j < |s| ==> s[i].1 != s[j].1
  }

  /** Number of entries whose key is at most `d` in a sorted multimap: the position
      `insert` uses, the upper bound of the equal range of `d`. */
  function UpperBound(s: seq<Entry>, d: real): (k: nat)
    ensures k <= |s|
    ensures forall j :: 0 <= j < k ==> s[j].0 <= d
    ensures k < |s| ==> s[k].0 > d
  {
    if s == [] || s[0].0 > d then 0 else 1 + UpperBound(s[1..], d)
  }

  /** The ids of one more entry of a walk over the multimap. */
  lemma IdsStep(s: seq<Entry>, i: nat)
    requires i < |s|
    ensures Ids(s[..i + 1]) == Ids(s[..i]) + {s[i].1}
    ensures NoDupIds(s) ==> s[i].1 !in Ids(s[..i])
  {
    assert s[..i + 1] == s[..i] + [s[i]];
  }

  /** `multimap::insert(make_pair(d, id))`: the new entry goes after every entry
      whose key equals `d`. */
  function Insert(s: seq<Entry>, d: real, id: Id): (r: seq<Entry>)
    ensures |r| == |s| + 1 && r[UpperBound(s, d)] == (d, id)
  {
    var k := UpperBound(s, d);
    s[..k] + [(d, id)] + s[k..]
  }

  /** The new entry goes between the entries with keys at most `d` and the rest,
      which keep their order. */
  lemma InsertPlaces(s: seq<Entry>, d: real, id: Id)
    ensures exists k :: (0 <= k <= |s| && Insert(s, d, id) == s[..k] + [(d, id)] + s[k..] &&
                         (forall j :: 0 <= j < k ==> s[j].0 <= d) && (k < |s| ==> d < s[k].0))
  {
    var k := UpperBound(s, d);
    assert Insert(s, d, id) == s[..k] + [(d, id)] + s[k..];
  }

  lemma InsertKeepsSorted(s: seq<Entry>, d: real, id: Id)
    requires Sorted(s)
    ensures Sorted(Insert(s, d, id))
  {
    var k := UpperBound(s, d);
    var r := Insert(s, d, id);
    forall i, j | 0 <= i < j < |r| ensures r[i].0 <= r[j].0 {
      if j < k {
      } else if j == k {
        assert r[i] == s[i];
      } else if i > k {
        assert r[i] == s[i - 1] && r[j] == s[j - 1];
      } else if i == k {
        assert r[j] == s[j - 1];
      } else {
        assert r[i] == s[i] && r[j] == s[j - 1];
      }
    }
  }

  /** Inserting adds exactly the one entry: nothing is lost or duplicated. */
  lemma InsertAddsOne(s: seq<Entry>, d: real, id: Id)
    ensures multiset(Insert(s, d, id)) == multiset(s) + multiset{(d, id)}
    ensures |Insert(s, d, id)| == |s| + 1
    ensures Ids(Insert(s, d, id)) == Ids(s) + {id}
  {
    InsertMultiset(s, d, id);
    InsertIds(s, d, id);
  }

  lemma InsertMultiset(s: seq<Entry>, d: real, id: Id)
    ensures multiset(Insert(s, d, id)) == multiset(s) + multiset{(d, id)}
  {
    var k := UpperBound(s, d);
    assert s == s[..k] + s[k..];
    assert multiset(s) == multiset(s[..k]) + multiset(s[k..]);
  }

  lemma InsertIds(s: seq<Entry>, d: real, id: Id)
    ensures Ids(Insert(s, d, id)) == Ids(s) + {id}
  {
    var k := UpperBound(s, d);
    var r := Insert(s, d, id);
    assert |r| == |s| + 1 && r[k] == (d, id);
    assert forall i :: 0 <= i < k ==> r[i] == s[i];
    assert forall i :: k < i < |r| ==> r[i] == s[i - 1];
    forall x | x in Ids(r) ensures x in Ids(s) + {id} {
      var i :| 0 <= i < |r| && r[i].1 == x;
      if i < k { assert s[i].1 == x; } else if i > k { assert s[i - 1].1 == x; }
    }
    forall x | x in Ids(s) ensures x in Ids(r) {
      var i :| 0 <= i < |s| && s[i].1 == x;
      if i < k { assert r[i].1 == x; } else { assert r[i + 1].1 == x; }
    }
    assert r[k].1 == id;
  }

  lemma InsertKeepsNoDupIds(s: seq<Entry>, d: real, id: Id)
    requires NoDupIds(s) && id !in Ids(s)
    ensures NoDupIds(Insert(s, d, id))
  {
    var k := UpperBound(s, d);
    var r := Insert(s, d, id);
    forall i, j | 0 <= i < j < |r| ensures r[i].1 != r[j].1 {
      if j < k {
      } else if j == k {
        assert r[i] == s[i];
      } else if i > k {
        assert r[i] == s[i - 1] && r[j] == s[j - 1];
      } else if i == k {
        assert r[j] == s[j - 1];
      } else {
        assert r[i] == s[i] && r[j] == s[j - 1];
      }
    }
  }

  /** Position of the first entry that refers to `id`, or |s| when there is none. */
  function FirstIndex(s: seq<Entry>, id: Id): (k: nat)
    ensures k <= |s|
    ensures k < |s| ==> s[k].1 == id
    ensures forall j :: 0 <= j < k ==> s[j].1 != id
  {
    if s == [] then 0
    else if s[0].1 == id then 0
    else 1 + FirstIndex(s[1..], id)
  }

  /** The multimap with its first entry for `id` erased. */
  function RemoveFirst(s: seq<Entry>, id: Id): (r: seq<Entry>)
    ensures id !in Ids(s) ==> r == s
    ensures id in Ids(s) ==> |r| + 1 == |s|
  {
    var k := FirstIndex(s, id);
    if k == |s| then s else s[..k] + s[k + 1..]
  }

  /** When `id` is referred to, the entry erased is the first one that refers to it,
      and the others keep their order. */
  lemma RemoveFirstErasesFirst(s: seq<Entry>, id: Id)
    requires id in Ids(s)
    ensures exists k :: (0 <= k < |s| && s[k].1 == id && RemoveFirst(s, id) == s[..k] + s[k + 1..] &&
                         forall j :: 0 <= j < k ==> s[j].1 != id)
  {
    var k := FirstIndex(s, id);
    assert RemoveFirst(s, id) == s[..k] + s[k + 1..];
  }

  /** The teardown step of one neighbour: walk the neighbour's multimap, and at the
      first entry that refers to `id` erase, within the equal range of that entry's
      key, the first entry that refers to `id` (which is that same entry), then stop. */
  method Unlink(s: seq<Entry>, id: Id) returns (r: seq<Entry>)
    ensures id !in Ids(s) ==> r == s
    ensures id in Ids(s) ==> exists k :: 0 <= k < |s| && s[k].1 == id && r == s[..k] + s[k + 1..]
    ensures r == RemoveFirst(s, id)
  {
    r := s;
    var i := 0;
    while i < |s|
      invariant 0 <= i <= |s|
      invariant forall j :: 0 <= j < i ==> s[j].1 != id
    {
      if s[i].1 == id {
        // equal_range(s[i].0) starts at or before i; none of its entries before i
        // refers to id, so the entry erased is the one at i
        r := s[..i] + s[i + 1..];
        assert FirstIndex(s, id) == i by { FirstIndexIsFirst(s, id, i); }
        return;
      }
      i := i + 1;
    }
    assert FirstIndex(s, id) == |s| by { FirstIndexIsFirst(s, id, |s|); }
    assert id !in Ids(s);
  }

  lemma {:induction false} FirstIndexIsFirst(s: seq<Entry>, id: Id, i: nat)
    requires i <= |s| && (i < |s| ==> s[i].1 == id)
    requires forall j :: 0 <= j < i ==> s[j].1 != id
    ensures FirstIndex(s, id) == i
  {
    if s != [] && i > 0 {
      FirstIndexIsFirst(s[1..], id, i - 1);
    }
  }

  /** Erasing removes exactly one entry for `id` when there is one, and only it. */
  lemma RemoveFirstRemovesOne(s: seq<Entry>, id: Id)
    ensures id !in Ids(s) ==> RemoveFirst(s, id) == s
    ensures id in Ids(s) ==>
      |RemoveFirst(s, id)| == |s| - 1 &&
      multiset(RemoveFirst(s, id)) == multiset(s) - multiset{s[FirstIndex(s, id)]}
  {
    var k := FirstIndex(s, id);
    if id in Ids(s) {
      var i :| 0 <= i < |s| && s[i].1 == id;
      assert k < |s|;
      assert s == s[..k] + [s[k]] + s[k + 1..];
    } else {
      assert k == |s|;
    }
  }

  /** Erasing keeps no entry that was not there. */
  lemma RemoveFirstKeeps(s: seq<Entry>, id: Id, e: Entry)
    requires e in RemoveFirst(s, id)
    ensures e in s
  {
    var k := FirstIndex(s, id);
    if k < |s| {
      var i :| 0 <= i < |RemoveFirst(s, id)| && RemoveFirst(s, id)[i] == e;
      if i < k {
        assert s[i] == e;
      } else {
        assert s[i + 1] == e;
      }
    }
  }

  lemma RemoveFirstKeepsSorted(s: seq<Entry>, id: Id)
    requires Sorted(s)
    ensures Sorted(RemoveFirst(s, id))
  {
    var k := FirstIndex(s, id);
    if k < |s| {
      var r := RemoveFirst(s, id);
      forall i, j | 0 <= i < j < |r| ensures r[i].0 <= r[j].0 {
        if j < k {
        } else if i < k {
          assert r[i] == s[i] && r[j] == s[j + 1];
        } else {
          assert r[i] == s[i + 1] && r[j] == s[j + 1];
        }
      }
    }
  }

  /** With no duplicate ids, erasing the entry for `id` leaves no reference to it
      and keeps every other reference. */
  lemma RemoveFirstIds(s: seq<Entry>, id: Id)
    requires NoDupIds(s)
    ensures NoDupIds(RemoveFirst(s, id))
    ensures Ids(RemoveFirst(s, id)) == Ids(s) - {id}
  {
    if FirstIndex(s, id) < |s| {
      RemoveFirstNoDup(s, id);
      RemoveFirstIdSet(s, id);
    } else {
      assert id !in Ids(s);
    }
  }

  lemma RemoveFirstNoDup(s: seq<Entry>, id: Id)
    requires NoDupIds(s) && FirstIndex(s, id) < |s|
    ensures NoDupIds(RemoveFirst(s, id))
  {
    var k := FirstIndex(s, id);
    var r := RemoveFirst(s, id);
    assert forall i :: 0 <= i < k ==> r[i] == s[i];
    assert forall i :: k <= i < |r| ==> r[i] == s[i + 1];
    forall i, j | 0 <= i < j < |r| ensures r[i].1 != r[j].1 {
      if j < k {
      } else if i < k {
        assert r[i] == s[i] && r[j] == s[j + 1];
      } else {
        assert r[i] == s[i + 1] && r[j] == s[j + 1];
      }
    }
  }

  lemma RemoveFirstIdSet(s: seq<Entry>, id: Id)
    requires NoDupIds(s) && FirstIndex(s, id) < |s|
    ensures Ids(RemoveFirst(s, id)) == Ids(s) - {id}
  {
    var k := FirstIndex(s, id);
    var r := RemoveFirst(s, id);
    assert |r| == |s| - 1;
    assert forall i :: 0 <= i < k ==> r[i] == s[i];
    assert forall i :: k <= i < |r| ==> r[i] == s[i + 1];
    forall x | x in Ids(r) ensures x in Ids(s) - {id} {
      var i :| 0 <= i < |r| && r[i].1 == x;
      if i < k { assert s[i].1 == x; } else { assert s[i + 1].1 == x && i + 1 != k; }
    }
    forall x | x in Ids(s) - {id} ensures x in Ids(r) {
      var i :| 0 <= i < |s| && s[i].1 == x;
      if i < k { assert r[i].1 == x; } else { assert i != k; assert r[i - 1].1 == x; }
    }
  }
}
