/** The A* open list: an array of `{id, f}` entries that is stably sorted by `f` before every
    pop, appended to for new nodes and updated in place for nodes already on it. */
module OpenSet {
  import opened Graph

  datatype OpenEntry = OpenEntry(id: NodeId, f: nat)

  predicate SortedByF(s: seq<OpenEntry>)
  {
    forall i, j :: 0 <= i < j < |s| ==> s[i].f <= s[j].f
  }

  function Ids(s: seq<OpenEntry>): set<NodeId>
  {
    set e | e in s :: e.id
  }

  /** No two entries share an id. */
  predicate Distinct(s: seq<OpenEntry>)
  {
    forall i, j :: 0 <= i < j < |s| ==> s[i].id != s[j].id
  }

  /** Places `x` in front of the first entry whose `f` is not smaller, so that `x` stays ahead
      of the equal entries it preceded. */
  function Insert(x: OpenEntry, s: seq<OpenEntry>): (r: seq<OpenEntry>)
    ensures multiset(r) == multiset(s) + multiset{x}
    decreases |s|
  {
    if s == [] || x.f <= s[0].f then [x] + s
    else
      assert s == [s[0]] + s[1..];
      [s[0]] + Insert(x, s[1..])
  }

  lemma MultisetIds(a: seq<OpenEntry>, b: seq<OpenEntry>)
    requires multiset(a) == multiset(b)
    ensures Ids(a) == Ids(b) && |a| == |b|
    ensures forall e :: e in a <==> e in b
  {
    assert |a| == |multiset(a)|;
    forall e ensures e in a <==> e in b {
      assert e in a <==> e in multiset(a);
      assert e in b <==> e in multiset(b);
    }
  }

  /** The head of a sorted list has the least `f`. */
  lemma HeadIsLeast(s: seq<OpenEntry>)
    requires SortedByF(s) && s != []
    ensures forall e :: e in s ==> s[0].f <= e.f
  {
    forall e | e in s ensures s[0].f <= e.f {
      var j :| 0 <= j < |s| && s[j] == e;
    }
  }

  /** A distinct list is its head's id followed by the distinct, different ids of its tail. */
  lemma DistinctHead(s: seq<OpenEntry>)
    requires Distinct(s) && s != []
    ensures s[0].id !in Ids(s[1..]) && Distinct(s[1..]) && Ids(s) == {s[0].id} + Ids(s[1..])
  {
    assert s == [s[0]] + s[1..];
    forall e | e in s[1..] ensures e.id != s[0].id {
      var j :| 0 <= j < |s[1..]| && s[1..][j] == e;
      assert s[j + 1] == e;
    }
  }

  /** Every entry after an insertion is the inserted one or an old one. */
  lemma InsertMembers(x: OpenEntry, s: seq<OpenEntry>)
    ensures forall e :: e in Insert(x, s) ==> e == x || e in s
  {
    forall e | e in Insert(x, s) ensures e == x || e in s {
      assert e in multiset(Insert(x, s));
    }
  }

  lemma {:induction false} InsertKeepsOrder(x: OpenEntry, s: seq<OpenEntry>)
    requires SortedByF(s)
    ensures SortedByF(Insert(x, s))
    decreases |s|
  {
    if !(s == [] || x.f <= s[0].f) {
      var rest := Insert(x, s[1..]);
      InsertKeepsOrder(x, s[1..]);
      assert forall e :: e in rest ==> s[0].f <= e.f by {
        HeadIsLeast(s);
        InsertMembers(x, s[1..]);
        assert forall e :: e in s[1..] ==> e in s;
      }
      var r := [s[0]] + rest;
      forall i, j | 0 <= i < j < |r| ensures r[i].f <= r[j].f {
        if i > 0 {
          assert r[i] == rest[i - 1] && r[j] == rest[j - 1];
        } else {
          assert r[j] in rest;
        }
      }
    }
  }

  lemma {:induction false} InsertKeepsDistinct(x: OpenEntry, s: seq<OpenEntry>)
    requires Distinct(s) && x.id !in Ids(s)
    ensures Distinct(Insert(x, s))
    decreases |s|
  {
    if s == [] || x.f <= s[0].f {
      var r := [x] + s;
      forall i, j | 0 <= i < j < |r| ensures r[i].id != r[j].id {
        if i == 0 {
          assert r[j] in s;
        } else {
          assert r[i] == s[i - 1] && r[j] == s[j - 1];
        }
      }
    } else {
      var rest := Insert(x, s[1..]);
      DistinctHead(s);
      InsertKeepsDistinct(x, s[1..]);
      assert forall e :: e in rest ==> e.id != s[0].id by {
        InsertMembers(x, s[1..]);
      }
      var r := [s[0]] + rest;
      forall i, j | 0 <= i < j < |r| ensures r[i].id != r[j].id {
        if i > 0 {
          assert r[i] == rest[i - 1] && r[j] == rest[j - 1];
        } else {
          assert r[j] in rest;
        }
      }
    }
  }

  /** The comparator sort `(a, b) => a.f - b.f`, which is stable: an insertion sort. */
  function SortByF(s: seq<OpenEntry>): (r: seq<OpenEntry>)
    ensures multiset(r) == multiset(s)
    decreases |s|
  {
    if s == [] then []
    else
      assert s == [s[0]] + s[1..];
      Insert(s[0], SortByF(s[1..]))
  }

  /** The entries whose key is `v`, in list order. */
  function WithF(s: seq<OpenEntry>, v: nat): seq<OpenEntry>
    decreases |s|
  {
    if s == [] then [] else (if s[0].f == v then [s[0]] else []) + WithF(s[1..], v)
  }

  /** Inserting `x` puts it ahead of every entry with the same key and leaves the relative order
      of all other entries with that key alone. */
  lemma {:induction false} InsertKeepsRuns(x: OpenEntry, s: seq<OpenEntry>, v: nat)
    ensures WithF(Insert(x, s), v) == (if x.f == v then [x] else []) + WithF(s, v)
    decreases |s|
  {
    if s == [] || x.f <= s[0].f {
      assert ([x] + s)[1..] == s;
    } else {
      InsertKeepsRuns(x, s[1..], v);
      assert ([s[0]] + Insert(x, s[1..]))[1..] == Insert(x, s[1..]);
    }
  }

  /** The sort is stable: for every key, the entries with that key keep their relative order. */
  lemma {:induction false} SortByFStable(s: seq<OpenEntry>, v: nat)
    ensures WithF(SortByF(s), v) == WithF(s, v)
    decreases |s|
  {
    if s != [] {
      SortByFStable(s[1..], v);
      InsertKeepsRuns(s[0], SortByF(s[1..]), v);
    }
  }

  /** Sorting orders the list by `f` and keeps it free of duplicate ids. */
  lemma {:induction false} SortByFSorted(s: seq<OpenEntry>)
    ensures SortedByF(SortByF(s))
    ensures Distinct(s) ==> Distinct(SortByF(s))
    decreases |s|
  {
    if s != [] {
      var rest := SortByF(s[1..]);
      SortByFSorted(s[1..]);
      InsertKeepsOrder(s[0], rest);
      if Distinct(s) {
        DistinctHead(s);
        MultisetIds(rest, s[1..]);
        InsertKeepsDistinct(s[0], rest);
      }
    }
  }

  /** The entry for `id` if one exists, the first such. */
  function FindIndex(s: seq<OpenEntry>, id: NodeId): (k: int)
    ensures -1 <= k < |s|
    ensures k == -1 <==> id !in Ids(s)
    ensures k >= 0 ==> s[k].id == id && forall j :: 0 <= j < k ==> s[j].id != id
    decreases |s|
  {
    if s == [] then -1
    else if s[0].id == id then 0
    else
      var k := FindIndex(s[1..], id);
      assert forall e :: e in s <==> e == s[0] || e in s[1..];
      if k == -1 then -1 else k + 1
  }

  /** Puts `id` on the open list with score `f`: appended when absent, otherwise its entry's `f`
      is overwritten where it stands. */
  function Upsert(s: seq<OpenEntry>, id: NodeId, f: nat): (r: seq<OpenEntry>)
    ensures Ids(r) == Ids(s) + {id}
    ensures Distinct(s) ==> Distinct(r)
    ensures |r| == if id in Ids(s) then |s| else |s| + 1
    ensures OpenEntry(id, f) in r
    ensures forall e :: e in s && e.id != id ==> e in r
    ensures forall j :: 0 <= j < |s| && j != FindIndex(s, id) ==> r[j] == s[j]
    ensures id in Ids(s) ==> r[FindIndex(s, id)] == OpenEntry(id, f)
    ensures id !in Ids(s) ==> r[|s|] == OpenEntry(id, f)
  {
    var k := FindIndex(s, id);
    if k == -1 then s + [OpenEntry(id, f)]
    else
      var r := s[k := OpenEntry(id, f)];
      assert r[k] == OpenEntry(id, f);
      assert forall j :: 0 <= j < |s| && j != k ==> r[j] == s[j];
      assert forall e :: e in s && e.id != id ==> e in r by {
        forall e | e in s && e.id != id ensures e in r {
          var j :| 0 <= j < |s| && s[j] == e;
          assert r[j] == e;
        }
      }
      assert Ids(r) == Ids(s) + {id} by {
        forall e | e in r ensures e.id in Ids(s) + {id} {
          var j :| 0 <= j < |r| && r[j] == e;
          if j != k { assert s[j] == e; }
        }
        forall e | e in s ensures e.id in Ids(r) {
          var j :| 0 <= j < |s| && s[j] == e;
          if j != k { assert r[j] == e; } else { assert r[k].id == e.id; }
        }
      }
      r
  }

  /** The entry popped after sorting has the least `f` of all entries on the list, and the
      remaining list keeps every other entry. */
  lemma PopIsMinimal(s: seq<OpenEntry>)
    requires s != []
    ensures var r := SortByF(s);
            r[0] in s && (forall e :: e in s ==> r[0].f <= e.f) &&
            multiset(r[1..]) + multiset{r[0]} == multiset(s)
  {
    var r := SortByF(s);
    assert r == [r[0]] + r[1..];
    assert forall e :: e in s ==> r[0].f <= e.f by {
      SortByFSorted(s);
      HeadIsLeast(r);
      MultisetIds(r, s);
    }
    assert r[0] in multiset(s);
  }
}
