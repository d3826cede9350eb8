/**
 * Counting cities: a list of path nodes with distinct cities drawn from
 * `0 .. n-1` holds at most `n` nodes, exactly `n` only when every city
 * occurs, and fewer than `n` only when some city is missing. The search
 * needs the first fact for its capacity guards and the other two for its
 * final "reached all cities" test.
 */
module CityCounting {
  import opened PathNodes

  /** `s` with the entry at `i` taken out. */
  function Without(s: seq<PathNode>, i: int): (r: seq<PathNode>)
    requires 0 <= i < |s|
    ensures |r| == |s| - 1
    ensures forall j :: 0 <= j < i ==> r[j] == s[j]
    ensures forall j :: i <= j < |r| ==> r[j] == s[j + 1]
  {
    s[..i] + s[i + 1..]
  }

  /** `s` with city `from` renamed to `to`. */
  function Rename(s: seq<PathNode>, from: int, to: int): (r: seq<PathNode>)
    ensures |r| == |s|
    ensures forall j :: 0 <= j < |s| ==> r[j].city == if s[j].city == from then to else s[j].city
  {
    seq(|s|, j requires 0 <= j < |s| => if s[j].city == from then PathNode(to, s[j].time) else s[j])
  }

  /** Distinct cities below `n` number at most `n`. */
  lemma {:induction false} AtMost(s: seq<PathNode>, n: nat)
    requires DistinctCities(s) && CitiesBelow(s, n)
    ensures |s| <= n
    decreases n
  {
    if |s| > 0 {
      assert 0 <= s[0].city < n;
      if i :| 0 <= i < |s| && s[i].city == n - 1 {
        var t := Without(s, i);
        forall j, k | 0 <= j < k < |t| ensures t[j].city != t[k].city {
          var j' := if j < i then j else j + 1;
          var k' := if k < i then k else k + 1;
          assert t[j] == s[j'] && t[k] == s[k'];
        }
        forall j | 0 <= j < |t| ensures 0 <= t[j].city < n - 1 {
          var j' := if j < i then j else j + 1;
          assert t[j] == s[j'];
        }
        AtMost(t, n - 1);
      } else {
        AtMost(s, n - 1);
      }
    }
  }

  /** `n` distinct cities below `n` are all of them. */
  lemma AllPresent(s: seq<PathNode>, n: nat)
    requires DistinctCities(s) && CitiesBelow(s, n) && |s| == n
    ensures forall v :: 0 <= v < n ==> HasCity(s, v)
  {
    forall v | 0 <= v < n ensures HasCity(s, v) {
      if !HasCity(s, v) {
        var t := Rename(s, n - 1, v);
        forall j | 0 <= j < |t| ensures 0 <= t[j].city < n - 1 {
          assert s[j].city != v;
        }
        AtMost(t, n - 1);
      }
    }
  }

  /** If every city below `n` occurs in `s`, then `s` has at least `n` entries. */
  lemma {:induction false} CoverNeedsLength(s: seq<PathNode>, n: int)
    requires forall v :: 0 <= v < n ==> HasCity(s, v)
    ensures |s| >= n
    decreases if n > 0 then n else 0
  {
    if n > 0 {
      assert HasCity(s, n - 1);
      var i :| 0 <= i < |s| && s[i].city == n - 1;
      var t := Without(s, i);
      forall v | 0 <= v < n - 1 ensures HasCity(t, v) {
        assert HasCity(s, v);
        var k :| 0 <= k < |s| && s[k].city == v;
        if k < i {
          assert t[k] == s[k];
        } else {
          assert t[k - 1] == s[k];
        }
      }
      CoverNeedsLength(t, n - 1);
    }
  }

  /** Fewer than `n` nodes miss some city below `n`. */
  lemma SomeMissing(s: seq<PathNode>, n: int)
    requires |s| < n
    ensures exists v :: 0 <= v < n && !HasCity(s, v)
  {
    if forall v :: 0 <= v < n ==> HasCity(s, v) {
      CoverNeedsLength(s, n);
    }
  }
}
