/**
 * What one pass of the inner `for` loop of DijkstraSearch does to each city's
 * entry on the open list, stated city by city: a city that is not closed, has
 * a non-blocked hop from the node just closed and is either absent from the
 * open list or there with a strictly later time gets exactly the time through
 * that hop; every other city keeps its entry, or its absence.
 */
module Relaxation {
  import opened PathNodes
  import opened HeapSpec
  import opened Graphs

  /** The time offered to `v` through the hop from `u`. */
  function Through(d: Data, u: PathNode, v: int): int
  {
    u.time + Weight(d, u.city, v)
  }

  /** Relaxing the hop from `u` changes `v`'s entry in `O`: `v` is not closed, the hop is not
      blocked, and every entry of `v` (if any) is strictly later than the offered time. */
  ghost predicate Improves(d: Data, O: seq<PathNode>, C: seq<PathNode>, u: PathNode, v: int)
  {
    !HasCity(C, v) && Edge(d, u.city, v) && forall t :: HasNode(O, v, t) ==> t > Through(d, u, v)
  }

  /** `v` has the same entries (none, or the same nodes) in `O` and `O2`. */
  ghost predicate SameEntries(O: seq<PathNode>, O2: seq<PathNode>, v: int)
  {
    forall t :: HasNode(O2, v, t) <==> HasNode(O, v, t)
  }

  /** `v`'s entry in `O2` is what relaxing the hop from `u` makes of its entry in `O`. */
  ghost predicate RelaxedEntry(d: Data, O: seq<PathNode>, O2: seq<PathNode>, C: seq<PathNode>, u: PathNode, v: int)
  {
    if Improves(d, O, C, u, v) then forall t :: HasNode(O2, v, t) <==> t == Through(d, u, v)
    else SameEntries(O, O2, v)
  }

  /** After the cities below `city`: those have their relaxed entry, all others are untouched. */
  ghost predicate Progress(d: Data, O0: seq<PathNode>, O: seq<PathNode>, C: seq<PathNode>, u: PathNode, city: int)
  {
    (forall v :: 0 <= v < city ==> RelaxedEntry(d, O0, O, C, u, v)) &&
    (forall v :: !(0 <= v < city) ==> SameEntries(O0, O, v))
  }

  /** A sequence with distinct cities holds at most one node per city. */
  lemma OneEntry(s: seq<PathNode>, v: int, t1: int, t2: int)
    requires DistinctCities(s) && HasNode(s, v, t1) && HasNode(s, v, t2)
    ensures t1 == t2
  {
    assert PathNode(v, t1) in s && PathNode(v, t2) in s;
    var i :| 0 <= i < |s| && s[i] == PathNode(v, t1);
    var j :| 0 <= j < |s| && s[j] == PathNode(v, t2);
  }

  /** A city absent from `s` has no node in it. */
  lemma NoEntry(s: seq<PathNode>, v: int, t: int)
    requires !HasCity(s, v)
    ensures !HasNode(s, v, t)
  {
  }

  /** The key change touches only the entry of the changed city, which then has the new time. */
  lemma ChangeKeyEntries(s: seq<PathNode>, i: int, w: int)
    requires DistinctCities(s) && 0 <= i < |s|
    ensures forall v :: v != s[i].city ==> SameEntries(s, ChangeKey(s, i, w), v)
    ensures forall t :: HasNode(ChangeKey(s, i, w), s[i].city, t) <==> t == w
  {
    var r := ChangeKey(s, i, w);
    var node := PathNode(s[i].city, w);
    assert multiset(r) == multiset(s[i := node]);
    assert multiset(s[i := node]) == multiset(s) - multiset{s[i]} + multiset{node};
    assert HasNode(r, s[i].city, w);
    forall t | HasNode(r, s[i].city, t) ensures t == w {
      OneEntry(r, s[i].city, t, w);
    }
  }

  /** Insertion adds exactly the new node and touches no other city. */
  lemma InsertEntries(s: seq<PathNode>, node: PathNode)
    requires !HasCity(s, node.city)
    ensures forall v :: v != node.city ==> SameEntries(s, Insert(s, node), v)
    ensures forall t :: HasNode(Insert(s, node), node.city, t) <==> t == node.time
  {
    forall t | t != node.time ensures !HasNode(Insert(s, node), node.city, t) {
      NoEntry(s, node.city, t);
    }
  }

  /** An untouched city keeps what the earlier steps made of its entry. */
  lemma Untouched(d: Data, O0: seq<PathNode>, O: seq<PathNode>, O2: seq<PathNode>, C: seq<PathNode>,
                  u: PathNode, v: int)
    requires SameEntries(O, O2, v)
    ensures RelaxedEntry(d, O0, O, C, u, v) ==> RelaxedEntry(d, O0, O2, C, u, v)
    ensures SameEntries(O0, O, v) ==> SameEntries(O0, O2, v)
  {
  }

  /** Before the first city nothing has changed. */
  lemma ProgressStart(d: Data, O0: seq<PathNode>, C: seq<PathNode>, u: PathNode)
    ensures Progress(d, O0, O0, C, u, 0)
  {
  }

  /** A city whose entry the hop does not improve is left as it is. */
  lemma ProgressSkip(d: Data, O0: seq<PathNode>, O: seq<PathNode>, C: seq<PathNode>, u: PathNode, city: int)
    requires Progress(d, O0, O, C, u, city) && 0 <= city
    requires !Improves(d, O, C, u, city)
    ensures Progress(d, O0, O, C, u, city + 1)
  {
    assert SameEntries(O0, O, city);
    assert !Improves(d, O0, C, u, city);
  }

  /** The decrease-key of the open entry of `city`, taken when the offered time is strictly earlier. */
  lemma ProgressDecrease(d: Data, O0: seq<PathNode>, O: seq<PathNode>, C: seq<PathNode>, u: PathNode,
                         city: int, idx: int, t: int)
    requires Progress(d, O0, O, C, u, city) && 0 <= city
    requires DistinctCities(O) && 0 <= idx < |O| && O[idx].city == city
    requires !HasCity(C, city) && Edge(d, u.city, city) && t == Through(d, u, city) && O[idx].time > t
    ensures Progress(d, O0, ChangeKey(O, idx, t), C, u, city + 1)
  {
    var O2 := ChangeKey(O, idx, t);
    ChangeKeyEntries(O, idx, t);
    assert SameEntries(O0, O, city);
    forall t' | HasNode(O0, city, t') ensures t' > t {
      assert HasNode(O, city, O[idx].time);
      OneEntry(O, city, t', O[idx].time);
    }
    assert RelaxedEntry(d, O0, O2, C, u, city);
    forall v | 0 <= v < city ensures RelaxedEntry(d, O0, O2, C, u, v) {
      Untouched(d, O0, O, O2, C, u, v);
    }
    forall v | !(0 <= v < city + 1) ensures SameEntries(O0, O2, v) {
      Untouched(d, O0, O, O2, C, u, v);
    }
  }

  /** The insertion of `city`, absent from the open list, with the offered time. */
  lemma ProgressInsert(d: Data, O0: seq<PathNode>, O: seq<PathNode>, C: seq<PathNode>, u: PathNode,
                       city: int, node: PathNode)
    requires Progress(d, O0, O, C, u, city) && 0 <= city
    requires !HasCity(O, city) && !HasCity(C, city) && Edge(d, u.city, city)
    requires node == PathNode(city, Through(d, u, city))
    ensures Progress(d, O0, Insert(O, node), C, u, city + 1)
  {
    var O2 := Insert(O, node);
    InsertEntries(O, node);
    assert SameEntries(O0, O, city);
    forall t' ensures !HasNode(O0, city, t') {
      NoEntry(O, city, t');
    }
    assert RelaxedEntry(d, O0, O2, C, u, city);
    forall v | 0 <= v < city ensures RelaxedEntry(d, O0, O2, C, u, v) {
      Untouched(d, O0, O, O2, C, u, v);
    }
    forall v | !(0 <= v < city + 1) ensures SameEntries(O0, O2, v) {
      Untouched(d, O0, O, O2, C, u, v);
    }
  }

  /** After the last city every city, in range or not, has its relaxed entry. */
  lemma ProgressDone(d: Data, O0: seq<PathNode>, O: seq<PathNode>, C: seq<PathNode>, u: PathNode)
    requires Progress(d, O0, O, C, u, d.numCities)
    ensures forall v :: RelaxedEntry(d, O0, O, C, u, v)
  {
    forall v ensures RelaxedEntry(d, O0, O, C, u, v) {
      if !(0 <= v < d.numCities) {
        assert !Edge(d, u.city, v);
      }
    }
  }
}
