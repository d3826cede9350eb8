/**
 * struct Data: the number of cities and the packed adjacency table, and what
 * "the least time for a message to travel from city 0" means over it. A
 * negative table entry blocks the pair; any other entry is the travel time.
 */
module Graphs {
  import opened Adjacency

  /** The value the parser stores for an `x` (blocked) entry. */
  const BlockedPath: int := -1

  datatype Data = Data(numCities: int, table: seq<int>)

  /** The table has exactly the size the parser allocates for the city count. */
  ghost predicate WellFormed(d: Data)
  {
    d.numCities > 0 ==> |d.table| == TableSize(d.numCities)
  }

  /** The table entry for a pair of distinct cities; `BlockedPath` for anything else. The slot is
      the one `TableIndex` computes (`SlotIsTableIndex`), written without division. */
  function Weight(d: Data, u: int, v: int): int
  {
    if 0 <= u < d.numCities && 0 <= v < d.numCities && u != v && Slot(u, v) < |d.table|
    then d.table[Slot(u, v)]
    else BlockedPath
  }

  /** A message can travel directly between `u` and `v`. */
  predicate Edge(d: Data, u: int, v: int)
  {
    Weight(d, u, v) >= 0
  }

  /** A route of the message: it starts at city 0 and each hop is along a non-blocked pair. */
  ghost predicate IsPath(d: Data, p: seq<int>)
  {
    |p| >= 1 && p[0] == 0 && 0 < d.numCities &&
    forall i :: 0 < i < |p| ==> Edge(d, p[i - 1], p[i])
  }

  /** Total travel time along `p`. */
  function Cost(d: Data, p: seq<int>): int
    decreases |p|
  {
    if |p| <= 1 then 0 else Cost(d, p[..|p| - 1]) + Weight(d, p[|p| - 2], p[|p| - 1])
  }

  /** Some route reaches `v` in time `t`. */
  ghost predicate Reaches(d: Data, v: int, t: int)
  {
    exists p {:trigger IsPath(d, p)} :: IsPath(d, p) && p[|p| - 1] == v && Cost(d, p) == t
  }

  /** Some route reaches `v`. */
  ghost predicate Connected(d: Data, v: int)
  {
    exists p {:trigger IsPath(d, p)} :: IsPath(d, p) && p[|p| - 1] == v
  }

  /** `t` is the least time in which a message from city 0 reaches `v`. */
  ghost predicate IsShortest(d: Data, v: int, t: int)
  {
    Reaches(d, v, t) && forall p {:trigger IsPath(d, p)} :: IsPath(d, p) && p[|p| - 1] == v ==> t <= Cost(d, p)
  }

  /** City `v` is reached, and its least time is at most `m`. */
  ghost predicate ReachedWithin(d: Data, v: int, m: int)
  {
    exists t :: IsShortest(d, v, t) && t <= m
  }

  /** `m` is the time for the message to reach every city: each city's least time
      is at most `m`, and some city needs exactly `m`. */
  ghost predicate IsFarthest(d: Data, m: int)
  {
    (forall v :: 0 <= v < d.numCities ==> ReachedWithin(d, v, m)) &&
    (exists v :: 0 <= v < d.numCities && IsShortest(d, v, m))
  }

  /** Every hop of a route is within the cities and between distinct ones. */
  lemma EdgeEnds(d: Data, u: int, v: int)
    requires Edge(d, u, v)
    ensures 0 <= u < d.numCities && 0 <= v < d.numCities && u != v
  {
  }

  /** Route times are never negative, because blocked pairs are never travelled. */
  lemma {:induction false} CostNonNegative(d: Data, p: seq<int>)
    requires IsPath(d, p)
    ensures Cost(d, p) >= 0
    decreases |p|
  {
    if |p| > 1 {
      PrefixIsPath(d, p, |p| - 1);
      CostNonNegative(d, p[..|p| - 1]);
      assert Edge(d, p[|p| - 2], p[|p| - 1]);
    }
  }

  /** A non-empty prefix of a route is a route. */
  lemma PrefixIsPath(d: Data, p: seq<int>, k: int)
    requires IsPath(d, p) && 1 <= k <= |p|
    ensures IsPath(d, p[..k])
  {
    var q := p[..k];
    forall i | 0 < i < |q| ensures Edge(d, q[i - 1], q[i]) {
      assert q[i - 1] == p[i - 1] && q[i] == p[i];
    }
  }

  /** A prefix of a route costs no more than the whole route. */
  lemma {:induction false} PrefixCost(d: Data, p: seq<int>, k: int)
    requires IsPath(d, p) && 1 <= k <= |p|
    ensures Cost(d, p[..k]) <= Cost(d, p)
    decreases |p| - k
  {
    if k < |p| {
      var q := p[..|p| - 1];
      PrefixIsPath(d, p, |p| - 1);
      assert q[..k] == p[..k];
      PrefixCost(d, q, k);
      assert Edge(d, p[|p| - 2], p[|p| - 1]);
      assert Cost(d, p) == Cost(d, q) + Weight(d, p[|p| - 2], p[|p| - 1]);
    } else {
      assert p[..k] == p;
    }
  }

  /** The prefix of length `j + 1` costs the prefix of length `j` plus its last hop. */
  lemma PrefixStep(d: Data, p: seq<int>, j: int)
    requires 1 <= j < |p|
    ensures Cost(d, p[..j + 1]) == Cost(d, p[..j]) + Weight(d, p[j - 1], p[j])
  {
    var q := p[..j + 1];
    assert q[..|q| - 1] == p[..j];
  }

  /** One more non-blocked hop extends a route by that hop's time. */
  lemma Extend(d: Data, p: seq<int>, v: int)
    requires IsPath(d, p) && Edge(d, p[|p| - 1], v)
    ensures IsPath(d, p + [v])
    ensures Cost(d, p + [v]) == Cost(d, p) + Weight(d, p[|p| - 1], v)
  {
    var q := p + [v];
    assert q[..|q| - 1] == p;
    forall i | 0 < i < |q| ensures Edge(d, q[i - 1], q[i]) {
      if i < |p| {
        assert q[i - 1] == p[i - 1] && q[i] == p[i];
      }
    }
  }

  /** The broadcast origin is reached at time 0. */
  lemma OriginIsZero(d: Data)
    requires d.numCities > 0
    ensures IsShortest(d, 0, 0)
  {
    assert IsPath(d, [0]) && Cost(d, [0]) == 0;
    forall p | IsPath(d, p) && p[|p| - 1] == 0 ensures 0 <= Cost(d, p) {
      CostNonNegative(d, p);
    }
  }

  /** The least time to a city is unique. */
  lemma ShortestIsUnique(d: Data, v: int, t1: int, t2: int)
    requires IsShortest(d, v, t1) && IsShortest(d, v, t2)
    ensures t1 == t2
  {
    var p1 :| IsPath(d, p1) && p1[|p1| - 1] == v && Cost(d, p1) == t1;
    var p2 :| IsPath(d, p2) && p2[|p2| - 1] == v && Cost(d, p2) == t2;
  }

  /** Least times are never negative. */
  lemma ShortestNonNegative(d: Data, v: int, t: int)
    requires Reaches(d, v, t)
    ensures t >= 0
  {
    var p :| IsPath(d, p) && p[|p| - 1] == v && Cost(d, p) == t;
    CostNonNegative(d, p);
  }
}
