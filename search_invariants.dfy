/**
 * What DijkstraSearch keeps true of its open list `O` (the heap contents)
 * and its closed list `C` (the visited nodes in the order they were
 * popped), and one lemma per step of its loops showing the step keeps it.
 */
module SearchInvariants {
  import opened PathNodes
  import opened HeapSpec
  import opened Graphs
  import opened CityCounting

  /** City `v` is on the open list with a time of at most `bound`. */
  ghost predicate OpenWithin(O: seq<PathNode>, v: int, bound: int)
  {
    exists k :: 0 <= k < |O| && O[k].city == v && O[k].time <= bound
  }

  /** The hop from closed node `u` to `v`, if not blocked, has been offered to the open list. */
  ghost predicate Relaxed(d: Data, O: seq<PathNode>, u: PathNode, v: int)
  {
    Edge(d, u.city, v) ==> OpenWithin(O, v, u.time + Weight(d, u.city, v))
  }

  /** Every hop from `u` to a city below `lim` that is not closed has been offered. */
  ghost predicate RelaxedBelow(d: Data, O: seq<PathNode>, C: seq<PathNode>, u: PathNode, lim: int)
  {
    forall v :: 0 <= v < lim && !HasCity(C, v) ==> Relaxed(d, O, u, v)
  }

  ghost predicate Disjoint(O: seq<PathNode>, C: seq<PathNode>)
  {
    forall k, j :: 0 <= k < |O| && 0 <= j < |C| ==> O[k].city != C[j].city
  }

  /** Closed nodes were popped in non-decreasing time order. */
  ghost predicate SortedByTime(C: seq<PathNode>)
  {
    forall i, j :: 0 <= i < j < |C| ==> C[i].time <= C[j].time
  }

  ghost predicate ClosedBeforeOpen(O: seq<PathNode>, C: seq<PathNode>)
  {
    forall j, k :: 0 <= j < |C| && 0 <= k < |O| ==> C[j].time <= O[k].time
  }

  ghost predicate ClosedAreShortest(d: Data, C: seq<PathNode>)
  {
    forall j :: 0 <= j < |C| ==> IsShortest(d, C[j].city, C[j].time)
  }

  ghost predicate OpenAreReached(d: Data, O: seq<PathNode>)
  {
    forall k :: 0 <= k < |O| ==> Reaches(d, O[k].city, O[k].time)
  }

  /** Before the first pop the open list is the seed; afterwards city 0 is closed first, at time 0. */
  ghost predicate StartsAtOrigin(O: seq<PathNode>, C: seq<PathNode>)
  {
    (|C| == 0 ==> O == [PathNode(0, 0)]) && (|C| > 0 ==> C[0] == PathNode(0, 0))
  }

  /** Everything but the relaxation bookkeeping. */
  ghost predicate Bookkeeping(d: Data, O: seq<PathNode>, C: seq<PathNode>)
  {
    d.numCities > 0 &&
    CitiesBelow(O, d.numCities) && CitiesBelow(C, d.numCities) &&
    DistinctCities(O) && DistinctCities(C) && Disjoint(O, C) &&
    HeapOrdered(O) && ClosedAreShortest(d, C) && OpenAreReached(d, O) &&
    SortedByTime(C) && ClosedBeforeOpen(O, C) && StartsAtOrigin(O, C)
  }

  /** The nodes closed before the `m`-th have been relaxed towards every city. */
  ghost predicate Frontier(d: Data, O: seq<PathNode>, C: seq<PathNode>, m: int)
  {
    forall j :: 0 <= j < |C| && j < m ==> RelaxedBelow(d, O, C, C[j], d.numCities)
  }

  /** The invariant of the outer loop (the `while` over the open list). */
  ghost predicate SearchInv(d: Data, O: seq<PathNode>, C: seq<PathNode>)
  {
    Bookkeeping(d, O, C) && Frontier(d, O, C, |C|)
  }

  /** The invariant of the inner loop: the last closed node has been relaxed towards the cities below `city`. */
  ghost predicate RelaxInv(d: Data, O: seq<PathNode>, C: seq<PathNode>, city: int)
  {
    Bookkeeping(d, O, C) && |C| > 0 && 0 <= city <= d.numCities &&
    Frontier(d, O, C, |C| - 1) && RelaxedBelow(d, O, C, C[|C| - 1], city)
  }

  /** Each open entry is matched in `O2` by an entry for the same city at no later time. */
  ghost predicate Dominates(O: seq<PathNode>, O2: seq<PathNode>)
  {
    forall k :: 0 <= k < |O| ==> OpenWithin(O2, O[k].city, O[k].time)
  }

  /** The facts about the open list that hold entry by entry. */
  ghost predicate OpenFacts(d: Data, O: seq<PathNode>, C: seq<PathNode>)
  {
    CitiesBelow(O, d.numCities) && OpenAreReached(d, O) && Disjoint(O, C) && ClosedBeforeOpen(O, C)
  }

  // ---------------------------------------------------------------------
  // Helpers

  /** An entry of `s` that also occurs in `t`, located in `t`. */
  lemma Locate(s: seq<PathNode>, i: int, t: seq<PathNode>) returns (j: int)
    requires 0 <= i < |s| && s[i] in multiset(t)
    ensures 0 <= j < |t| && t[j] == s[i]
  {
    assert s[i] in t;
    j :| 0 <= j < |t| && t[j] == s[i];
  }

  /** The open and closed lists together never hold more than one node per city. */
  lemma CountBound(O: seq<PathNode>, C: seq<PathNode>, n: nat)
    requires CitiesBelow(O, n) && CitiesBelow(C, n)
    requires DistinctCities(O) && DistinctCities(C) && Disjoint(O, C)
    ensures |O| + |C| <= n
  {
    var s := O + C;
    forall i, j | 0 <= i < j < |s| ensures s[i].city != s[j].city {
      if j < |O| {
        assert s[i] == O[i] && s[j] == O[j];
      } else if i < |O| {
        assert s[i] == O[i] && s[j] == C[j - |O|];
      } else {
        assert s[i] == C[i - |O|] && s[j] == C[j - |O|];
      }
    }
    forall i | 0 <= i < |s| ensures 0 <= s[i].city < n {
      if i < |O| { assert s[i] == O[i]; } else { assert s[i] == C[i - |O|]; }
    }
    AtMost(s, n);
  }

  /** Along a route that starts closed and ends open there is a hop from a closed city to an open one. */
  lemma FirstOpenHop(d: Data, C: seq<PathNode>, p: seq<int>) returns (j: int)
    requires IsPath(d, p) && HasCity(C, p[0]) && !HasCity(C, p[|p| - 1])
    ensures 1 <= j < |p| && HasCity(C, p[j - 1]) && !HasCity(C, p[j])
  {
    j := 1;
    while HasCity(C, p[j])
      invariant 1 <= j < |p| && HasCity(C, p[j - 1])
      decreases |p| - j
    {
      j := j + 1;
    }
  }

  /** The last closed node has the latest time. */
  lemma LastIsLatest(C: seq<PathNode>)
    requires SortedByTime(C) && |C| > 0
    ensures forall j :: 0 <= j < |C| ==> C[j].time <= C[|C| - 1].time
  {
    forall j | 0 <= j < |C| ensures C[j].time <= C[|C| - 1].time {
      if j < |C| - 1 { assert C[j].time <= C[|C| - 1].time; }
    }
  }

  lemma DominatesKeepsRelaxed(d: Data, O: seq<PathNode>, O2: seq<PathNode>, C: seq<PathNode>, u: PathNode, lim: int)
    requires Dominates(O, O2) && RelaxedBelow(d, O, C, u, lim)
    ensures RelaxedBelow(d, O2, C, u, lim)
  {
    forall v | 0 <= v < lim && !HasCity(C, v) && Edge(d, u.city, v)
      ensures OpenWithin(O2, v, u.time + Weight(d, u.city, v))
    {
      assert Relaxed(d, O, u, v);
      var k :| 0 <= k < |O| && O[k].city == v && O[k].time <= u.time + Weight(d, u.city, v);
      assert OpenWithin(O2, O[k].city, O[k].time);
    }
  }

  lemma DominatesKeepsFrontier(d: Data, O: seq<PathNode>, O2: seq<PathNode>, C: seq<PathNode>, m: int)
    requires Dominates(O, O2) && Frontier(d, O, C, m)
    ensures Frontier(d, O2, C, m)
  {
    forall j | 0 <= j < |C| && j < m ensures RelaxedBelow(d, O2, C, C[j], d.numCities) {
      DominatesKeepsRelaxed(d, O, O2, C, C[j], d.numCities);
    }
  }

  lemma DominatesTransitive(O: seq<PathNode>, O1: seq<PathNode>, O2: seq<PathNode>)
    requires Dominates(O, O1) && Dominates(O1, O2)
    ensures Dominates(O, O2)
  {
    forall k | 0 <= k < |O| ensures OpenWithin(O2, O[k].city, O[k].time) {
      var k1 :| 0 <= k1 < |O1| && O1[k1].city == O[k].city && O1[k1].time <= O[k].time;
      assert OpenWithin(O2, O1[k1].city, O1[k1].time);
    }
  }

  /** Reordering the open list (a sift) keeps every entry-wise fact. */
  lemma PermutedOpen(d: Data, O1: seq<PathNode>, O2: seq<PathNode>, C: seq<PathNode>)
    requires multiset(O2) == multiset(O1) && OpenFacts(d, O1, C)
    ensures OpenFacts(d, O2, C) && Dominates(O1, O2)
  {
    forall k2 | 0 <= k2 < |O2|
      ensures 0 <= O2[k2].city < d.numCities && Reaches(d, O2[k2].city, O2[k2].time)
      ensures forall j :: 0 <= j < |C| ==> O2[k2].city != C[j].city && C[j].time <= O2[k2].time
    {
      var k := Locate(O2, k2, O1);
    }
    forall k | 0 <= k < |O1| ensures OpenWithin(O2, O1[k].city, O1[k].time) {
      var k2 := Locate(O1, k, O2);
    }
  }

  // ---------------------------------------------------------------------
  // The pop

  /** A hop relaxed from `u` bounds the root of the open list. */
  lemma HopBound(d: Data, O: seq<PathNode>, C: seq<PathNode>, u: PathNode, v: int)
    requires HeapOrdered(O) && RelaxedBelow(d, O, C, u, d.numCities)
    requires 0 <= v < d.numCities && !HasCity(C, v) && Edge(d, u.city, v)
    ensures |O| > 0 && O[0].time <= u.time + Weight(d, u.city, v)
  {
    assert Relaxed(d, O, u, v);
    var k :| 0 <= k < |O| && O[k].city == v && O[k].time <= u.time + Weight(d, u.city, v);
    RootIsMinimum(O, k);
  }

  /** The node at the root of the open list has its least time: no route to its city is quicker. */
  lemma PopLowerBound(d: Data, O: seq<PathNode>, C: seq<PathNode>, p: seq<int>)
    requires |O| > 0 && HeapOrdered(O) && Disjoint(O, C) && StartsAtOrigin(O, C)
    requires ClosedAreShortest(d, C) && Frontier(d, O, C, |C|)
    requires IsPath(d, p) && p[|p| - 1] == O[0].city
    ensures O[0].time <= Cost(d, p)
  {
    if |C| == 0 {
      CostNonNegative(d, p);
    } else {
      assert C[0].city == p[0];
      assert !HasCity(C, p[|p| - 1]) by {
        forall j | 0 <= j < |C| ensures C[j].city != O[0].city {
          assert O[0].city != C[j].city;
        }
      }
      var j := FirstOpenHop(d, C, p);
      var i :| 0 <= i < |C| && C[i].city == p[j - 1];
      assert Edge(d, p[j - 1], p[j]);
      EdgeEnds(d, p[j - 1], p[j]);
      assert RelaxedBelow(d, O, C, C[i], d.numCities);
      HopBound(d, O, C, C[i], p[j]);
      PrefixIsPath(d, p, j);
      assert p[..j][|p[..j]| - 1] == p[j - 1];
      assert IsShortest(d, C[i].city, C[i].time);
      assert C[i].time <= Cost(d, p[..j]);
      PrefixStep(d, p, j);
      PrefixCost(d, p, j + 1);
    }
  }

  lemma PopIsShortest(d: Data, O: seq<PathNode>, C: seq<PathNode>)
    requires |O| > 0 && HeapOrdered(O) && Disjoint(O, C) && StartsAtOrigin(O, C)
    requires ClosedAreShortest(d, C) && Frontier(d, O, C, |C|) && OpenAreReached(d, O)
    ensures IsShortest(d, O[0].city, O[0].time)
  {
    forall p | IsPath(d, p) && p[|p| - 1] == O[0].city ensures O[0].time <= Cost(d, p) {
      PopLowerBound(d, O, C, p);
    }
  }

  /** The entries left after the root, against the closed list with the root appended. */
  lemma PopRest(d: Data, O: seq<PathNode>, C: seq<PathNode>)
    requires |O| > 0 && HeapOrdered(O) && DistinctCities(O) && OpenFacts(d, O, C)
    ensures OpenFacts(d, O[1..], C + [O[0]])
  {
    var rest := O[1..];
    var C2 := C + [O[0]];
    forall k | 0 <= k < |rest|
      ensures 0 <= rest[k].city < d.numCities && Reaches(d, rest[k].city, rest[k].time)
      ensures forall j :: 0 <= j < |C2| ==> rest[k].city != C2[j].city && C2[j].time <= rest[k].time
    {
      assert rest[k] == O[k + 1];
      RootIsMinimum(O, k + 1);
      forall j | 0 <= j < |C2| ensures rest[k].city != C2[j].city && C2[j].time <= rest[k].time {
        if j < |C| { assert C2[j] == C[j]; }
      }
    }
  }

  /** The closed list with the root appended. */
  lemma PopClosed(d: Data, O: seq<PathNode>, C: seq<PathNode>)
    requires |O| > 0 && CitiesBelow(O, d.numCities) && Disjoint(O, C) && ClosedBeforeOpen(O, C)
    requires CitiesBelow(C, d.numCities) && DistinctCities(C) && SortedByTime(C) && ClosedAreShortest(d, C)
    requires StartsAtOrigin(O, C) && IsShortest(d, O[0].city, O[0].time)
    ensures CitiesBelow(C + [O[0]], d.numCities) && DistinctCities(C + [O[0]])
    ensures SortedByTime(C + [O[0]]) && ClosedAreShortest(d, C + [O[0]])
    ensures (C + [O[0]])[0] == PathNode(0, 0)
  {
    var C2 := C + [O[0]];
    forall i, j | 0 <= i < j < |C2|
      ensures C2[i].city != C2[j].city && C2[i].time <= C2[j].time
    {
      assert C2[i] == C[i];
      if j < |C| { assert C2[j] == C[j]; } else { assert O[0].city != C[i].city; }
    }
    forall j | 0 <= j < |C2| ensures 0 <= C2[j].city < d.numCities && IsShortest(d, C2[j].city, C2[j].time) {
      if j < |C| { assert C2[j] == C[j]; }
    }
    if |C| > 0 { assert C2[0] == C[0]; }
  }

  /** The nodes closed before the pop stay relaxed: the popped city is now closed, and every other open entry survives. */
  lemma PopFrontier(d: Data, O: seq<PathNode>, C: seq<PathNode>)
    requires |O| > 0 && DistinctCities(O) && Frontier(d, O, C, |C|)
    ensures Frontier(d, O[1..], C + [O[0]], |C|)
  {
    var rest := O[1..];
    var C2 := C + [O[0]];
    forall j | 0 <= j < |C2| && j < |C| ensures RelaxedBelow(d, rest, C2, C2[j], d.numCities) {
      assert C2[j] == C[j];
      forall v | 0 <= v < d.numCities && !HasCity(C2, v) && Edge(d, C[j].city, v)
        ensures OpenWithin(rest, v, C[j].time + Weight(d, C[j].city, v))
      {
        assert !HasCity(C, v) by {
          forall i | 0 <= i < |C| ensures C[i].city != v { assert C2[i] == C[i]; }
        }
        assert v != O[0].city by { assert C2[|C|] == O[0]; }
        assert RelaxedBelow(d, O, C, C[j], d.numCities);
        assert Relaxed(d, O, C[j], v);
        var k :| 0 <= k < |O| && O[k].city == v && O[k].time <= C[j].time + Weight(d, C[j].city, v);
        assert rest[k - 1] == O[k];
      }
    }
  }

  /** The seeded open list `[PathNode(0, 0)]` with an empty closed list satisfies the invariant. */
  lemma Start(d: Data)
    requires d.numCities > 0
    ensures SearchInv(d, [PathNode(0, 0)], [])
  {
    OriginIsZero(d);
  }

  /** Popping the root and appending it to the closed list keeps the invariant, with nothing yet relaxed
      from the new closed node; the closed list is below capacity, so the append is never dropped. */
  lemma PopStep(d: Data, O: seq<PathNode>, C: seq<PathNode>)
    requires SearchInv(d, O, C) && |O| > 0
    ensures |C| < d.numCities
    ensures RelaxInv(d, RemoveRoot(O), C + [O[0]], 0)
  {
    CountBound(O, C, d.numCities);
    var O2 := RemoveRoot(O);
    var C2 := C + [O[0]];
    RemoveRootKeepsOrder(O);
    PopIsShortest(d, O, C);
    PopRest(d, O, C);
    PermutedOpen(d, O[1..], O2, C2);
    PopClosed(d, O, C);
    PopFrontier(d, O, C);
    DominatesKeepsFrontier(d, O[1..], O2, C2, |C|);
    assert Bookkeeping(d, O2, C2);
  }

  // ---------------------------------------------------------------------
  // One city of the relaxation loop

  /** One more city is relaxed once it is closed, blocked from `u`, or offered at no later time. */
  lemma RelaxOne(d: Data, O: seq<PathNode>, C: seq<PathNode>, u: PathNode, city: int)
    requires RelaxedBelow(d, O, C, u, city)
    requires HasCity(C, city) || !Edge(d, u.city, city) || OpenWithin(O, city, u.time + Weight(d, u.city, city))
    ensures RelaxedBelow(d, O, C, u, city + 1)
  {
    forall v | 0 <= v < city + 1 && !HasCity(C, v) ensures Relaxed(d, O, u, v) {
      if v < city { assert Relaxed(d, O, u, v); }
    }
  }

  /** The city is skipped: it is closed (the popped city itself included), the hop is blocked,
      or the open list already has a time no later than the new one. */
  lemma RelaxSkip(d: Data, O: seq<PathNode>, C: seq<PathNode>, city: int)
    requires RelaxInv(d, O, C, city) && city < d.numCities
    requires HasCity(C, city) || !Edge(d, C[|C| - 1].city, city) ||
             OpenWithin(O, city, C[|C| - 1].time + Weight(d, C[|C| - 1].city, city))
    ensures RelaxInv(d, O, C, city + 1)
  {
    RelaxOne(d, O, C, C[|C| - 1], city);
  }

  /** A newly offered node: a route reaches it through the last closed node, no earlier than any closed node. */
  lemma Offered(d: Data, C: seq<PathNode>, city: int)
    requires |C| > 0 && ClosedAreShortest(d, C) && SortedByTime(C)
    requires Edge(d, C[|C| - 1].city, city)
    ensures Reaches(d, city, C[|C| - 1].time + Weight(d, C[|C| - 1].city, city))
    ensures forall j :: 0 <= j < |C| ==> C[j].time <= C[|C| - 1].time + Weight(d, C[|C| - 1].city, city)
  {
    var u := C[|C| - 1];
    assert IsShortest(d, u.city, u.time);
    var p :| IsPath(d, p) && p[|p| - 1] == u.city && Cost(d, p) == u.time;
    Extend(d, p, city);
    assert (p + [city])[|p + [city]| - 1] == city;
    LastIsLatest(C);
  }

  /** Lowering the time of entry `idx` before the sift. */
  lemma LowerOpen(d: Data, O: seq<PathNode>, C: seq<PathNode>, idx: int, node: PathNode)
    requires 0 <= idx < |O| && node.city == O[idx].city && node.time <= O[idx].time
    requires Reaches(d, node.city, node.time) && forall j :: 0 <= j < |C| ==> C[j].time <= node.time
    requires OpenFacts(d, O, C)
    ensures OpenFacts(d, O[idx := node], C) && Dominates(O, O[idx := node])
  {
    var O1 := O[idx := node];
    forall k | 0 <= k < |O| ensures OpenWithin(O1, O[k].city, O[k].time) {
      assert O1[k].city == O[k].city && O1[k].time <= O[k].time;
    }
  }

  /** The city is open with a later time: MinHeapChangeNodeWeight lowers it to the new time `t`. */
  lemma RelaxDecrease(d: Data, O: seq<PathNode>, C: seq<PathNode>, city: int, idx: int, t: int)
    requires RelaxInv(d, O, C, city) && city < d.numCities && !HasCity(C, city)
    requires 0 <= idx < |O| && O[idx].city == city
    requires Edge(d, C[|C| - 1].city, city) && t == C[|C| - 1].time + Weight(d, C[|C| - 1].city, city)
    requires O[idx].time > t
    ensures RelaxInv(d, ChangeKey(O, idx, t), C, city + 1)
  {
    var u := C[|C| - 1];
    var node := PathNode(city, t);
    var O1 := O[idx := node];
    var O2 := ChangeKey(O, idx, t);
    ChangeKeyKeepsOrder(O, idx, t);
    Offered(d, C, city);
    LowerOpen(d, O, C, idx, node);
    PermutedOpen(d, O1, O2, C);
    DominatesTransitive(O, O1, O2);
    DominatesKeepsFrontier(d, O, O2, C, |C| - 1);
    DominatesKeepsRelaxed(d, O, O2, C, u, city);
    assert OpenWithin(O2, O1[idx].city, O1[idx].time);
    RelaxOne(d, O2, C, u, city);
  }

  /** Appending a new city before the sift. */
  lemma AppendOpen(d: Data, O: seq<PathNode>, C: seq<PathNode>, node: PathNode)
    requires 0 <= node.city < d.numCities && !HasCity(C, node.city)
    requires Reaches(d, node.city, node.time) && forall j :: 0 <= j < |C| ==> C[j].time <= node.time
    requires OpenFacts(d, O, C)
    ensures OpenFacts(d, O + [node], C) && Dominates(O, O + [node])
  {
    var O1 := O + [node];
    forall k | 0 <= k < |O1|
      ensures 0 <= O1[k].city < d.numCities && Reaches(d, O1[k].city, O1[k].time)
      ensures forall j :: 0 <= j < |C| ==> O1[k].city != C[j].city && C[j].time <= O1[k].time
    {
      if k < |O| { assert O1[k] == O[k]; }
    }
    forall k | 0 <= k < |O| ensures OpenWithin(O1, O[k].city, O[k].time) {
      assert O1[k] == O[k];
    }
  }

  /** The city is neither closed nor open: MinHeapAddTo inserts it with the new time,
      and the heap is below capacity, so the insert is never dropped. */
  lemma RelaxInsert(d: Data, O: seq<PathNode>, C: seq<PathNode>, city: int, node: PathNode)
    requires RelaxInv(d, O, C, city) && city < d.numCities && !HasCity(C, city) && !HasCity(O, city)
    requires Edge(d, C[|C| - 1].city, city)
    requires node == PathNode(city, C[|C| - 1].time + Weight(d, C[|C| - 1].city, city))
    ensures |O| < d.numCities
    ensures RelaxInv(d, Insert(O, node), C, city + 1)
  {
    var u := C[|C| - 1];
    var O1 := O + [node];
    var O2 := Insert(O, node);
    InsertKeepsOrder(O, node);
    Offered(d, C, city);
    AppendOpen(d, O, C, node);
    assert DistinctCities(O1) by {
      forall i, j | 0 <= i < j < |O1| ensures O1[i].city != O1[j].city {
        assert O1[i] == O[i];
      }
    }
    CountBound(O1, C, d.numCities);
    assert multiset(O2) == multiset(O1);
    PermutedOpen(d, O1, O2, C);
    DominatesTransitive(O, O1, O2);
    DominatesKeepsFrontier(d, O, O2, C, |C| - 1);
    DominatesKeepsRelaxed(d, O, O2, C, u, city);
    assert OpenWithin(O2, O1[|O|].city, O1[|O|].time);
    RelaxOne(d, O2, C, u, city);
  }

  /** After the last city the inner invariant is the outer one. */
  lemma RelaxDone(d: Data, O: seq<PathNode>, C: seq<PathNode>)
    requires RelaxInv(d, O, C, d.numCities)
    ensures SearchInv(d, O, C)
  {
  }

  // ---------------------------------------------------------------------
  // The end of the search

  /** Once the open list is empty, every route ends at a closed city. */
  lemma {:induction false} RoutesEndClosed(d: Data, C: seq<PathNode>, p: seq<int>)
    requires SearchInv(d, [], C) && IsPath(d, p)
    ensures HasCity(C, p[|p| - 1])
    decreases |p|
  {
    if |p| == 1 {
      assert C[0].city == 0;
    } else {
      var q := p[..|p| - 1];
      PrefixIsPath(d, p, |p| - 1);
      RoutesEndClosed(d, C, q);
      var i :| 0 <= i < |C| && C[i].city == p[|p| - 2];
      assert Edge(d, p[|p| - 2], p[|p| - 1]);
      EdgeEnds(d, p[|p| - 2], p[|p| - 1]);
      assert RelaxedBelow(d, [], C, C[i], d.numCities);
      assert !OpenWithin([], p[|p| - 1], C[i].time + Weight(d, C[i].city, p[|p| - 1]));
    }
  }

  /** With the open list empty, the closed list holds all cities exactly when all are reachable. */
  lemma Finish(d: Data, C: seq<PathNode>)
    requires SearchInv(d, [], C)
    ensures |C| <= d.numCities
    ensures |C| == d.numCities ==> forall v :: 0 <= v < d.numCities ==> HasCity(C, v)
    ensures |C| < d.numCities ==> exists v :: 0 <= v < d.numCities && !Connected(d, v)
  {
    CountBound([], C, d.numCities);
    if |C| == d.numCities {
      AllPresent(C, d.numCities);
    } else {
      SomeMissing(C, d.numCities);
      var v :| 0 <= v < d.numCities && !HasCity(C, v);
      forall p | IsPath(d, p) ensures p[|p| - 1] != v {
        RoutesEndClosed(d, C, p);
      }
      assert !Connected(d, v);
    }
  }

  /** The largest time in `C`, or 0 when no time is positive (the C loop starts from 0). */
  function MaxTime(C: seq<PathNode>): (m: int)
    ensures m >= 0
    ensures forall j :: 0 <= j < |C| ==> C[j].time <= m
    ensures m == 0 || exists j :: 0 <= j < |C| && C[j].time == m
    decreases |C|
  {
    if |C| == 0 then 0
    else
      var m := MaxTime(C[..|C| - 1]);
      if C[|C| - 1].time > m then C[|C| - 1].time else m
  }

  /** What the search concludes once the open list is empty: the closed list is a set of least times,
      in order, and it is full exactly when every city is reachable. */
  lemma Concluded(d: Data, C: seq<PathNode>)
    requires SearchInv(d, [], C)
    ensures DistinctCities(C) && SortedByTime(C) && ClosedAreShortest(d, C)
    ensures |C| <= d.numCities
    ensures |C| == d.numCities <==> forall v :: 0 <= v < d.numCities ==> Connected(d, v)
  {
    Finish(d, C);
    if |C| == d.numCities {
      forall v | 0 <= v < d.numCities ensures Connected(d, v) {
        assert HasCity(C, v);
        var j :| 0 <= j < |C| && C[j].city == v;
        assert IsShortest(d, C[j].city, C[j].time);
      }
    }
  }

  /** The reported time: with every city closed, the largest closed time (or 0) is the farthest city's least time. */
  lemma Farthest(d: Data, C: seq<PathNode>, m: int)
    requires SearchInv(d, [], C) && |C| == d.numCities && m == MaxTime(C)
    ensures IsFarthest(d, m)
  {
    Finish(d, C);
    forall v | 0 <= v < d.numCities ensures ReachedWithin(d, v, m) && Connected(d, v) {
      assert HasCity(C, v);
      var j :| 0 <= j < |C| && C[j].city == v;
      assert IsShortest(d, C[j].city, C[j].time);
    }
    if m == 0 {
      assert IsShortest(d, C[0].city, C[0].time);
    } else {
      var j :| 0 <= j < |C| && C[j].time == m;
      assert IsShortest(d, C[j].city, C[j].time);
    }
  }
}
