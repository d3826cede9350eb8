/** The record that both containers of the search hold. */
module PathNodes {

  /** struct PathNode: a city and how long it takes to get there. */
  datatype PathNode = PathNode(city: int, time: int)

  /** No city occurs twice in `s`. */
  ghost predicate DistinctCities(s: seq<PathNode>)
  {
    forall i, j :: 0 <= i < j < |s| ==> s[i].city != s[j].city
  }

  /** Some node of `s` is for city `v`. */
  ghost predicate HasCity(s: seq<PathNode>, v: int)
  {
    exists i :: 0 <= i < |s| && s[i].city == v
  }

  /** `s` holds the node for city `v` with time `t`, at some position. */
  ghost predicate HasNode(s: seq<PathNode>, v: int, t: int)
  {
    PathNode(v, t) in multiset(s)
  }

  /** Every city in `s` is one of `0 .. n-1`. */
  ghost predicate CitiesBelow(s: seq<PathNode>, n: int)
  {
    forall i :: 0 <= i < |s| ==> 0 <= s[i].city < n
  }
}
