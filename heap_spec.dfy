/**
 * The binary min-heap as a sequence: children of `i` at `2i+1` and `2i+2`,
 * ordered by `time` with strict `<` comparisons. The functions here mirror
 * the loops of MinHeapBubbleUp and MinHeapBubbleDown step by step; the
 * class in min_heap.dfy is proved to compute them.
 */
module HeapSpec {
  import opened PathNodes

  /** Parent of a non-root index. */
  function Parent(i: int): int
    requires i > 0
  {
    (i - 1) / 2
  }

  /** Every non-root element's time is at least its parent's. */
  ghost predicate HeapOrdered(s: seq<PathNode>)
  {
    forall j :: 0 < j < |s| ==> s[Parent(j)].time <= s[j].time
  }

  /** Exchange the entries at `i` and `j`. */
  function Swap(s: seq<PathNode>, i: int, j: int): (t: seq<PathNode>)
    requires 0 <= i < |s| && 0 <= j < |s|
    ensures |t| == |s| && t[i] == s[j] && t[j] == s[i]
  {
    s[i := s[j]][j := s[i]]
  }

  /** An exchange leaves every other entry in place, so it permutes `s` and keeps its cities distinct. */
  lemma SwapFacts(s: seq<PathNode>, i: int, j: int)
    requires 0 <= i < |s| && 0 <= j < |s|
    ensures forall m :: 0 <= m < |s| && m != i && m != j ==> Swap(s, i, j)[m] == s[m]
    ensures multiset(Swap(s, i, j)) == multiset(s)
    ensures DistinctCities(s) ==> DistinctCities(Swap(s, i, j))
  {
    var t := Swap(s, i, j);
    if DistinctCities(s) {
      forall a, b | 0 <= a < b < |t| ensures t[a].city != t[b].city {
        var a' := if a == i then j else if a == j then i else a;
        var b' := if b == i then j else if b == j then i else b;
        assert t[a] == s[a'] && t[b] == s[b'];
      }
    }
  }

  /** MinHeapBubbleUp: swap the entry at `k` with its parent while it is strictly smaller. */
  function SiftUp(s: seq<PathNode>, k: int): (r: seq<PathNode>)
    ensures |r| == |s|
    decreases k
  {
    if 0 < k < |s| && s[k].time < s[Parent(k)].time then SiftUp(Swap(s, k, Parent(k)), Parent(k))
    else s
  }

  /** The child MinHeapBubbleDown compares against: the left one only when it is
      the only child or strictly smaller than the right one. */
  function SmallerChild(s: seq<PathNode>, k: int): (c: int)
    requires 0 <= k && 2 * k + 1 < |s|
    ensures c == 2 * k + 1 || c == 2 * k + 2
    ensures c < |s|
  {
    var left := 2 * k + 1;
    var right := left + 1;
    if right >= |s| then left
    else if s[left].time < s[right].time then left
    else right
  }

  /** The chosen child has the least time among the children of `k`. */
  lemma SmallerChildIsLeast(s: seq<PathNode>, k: int)
    requires 0 <= k && 2 * k + 1 < |s|
    ensures Parent(SmallerChild(s, k)) == k
    ensures forall j :: 0 < j < |s| && Parent(j) == k ==> s[SmallerChild(s, k)].time <= s[j].time
  {
    forall j | 0 < j < |s| && Parent(j) == k ensures s[SmallerChild(s, k)].time <= s[j].time {
      assert j == 2 * k + 1 || j == 2 * k + 2;
    }
  }

  /** MinHeapBubbleDown: swap the entry at `k` with its smaller child while that child is strictly smaller. */
  function SiftDown(s: seq<PathNode>, k: int): (r: seq<PathNode>)
    ensures |r| == |s|
    decreases |s| - k
  {
    if 0 <= k && 2 * k + 1 < |s| then
      var c := SmallerChild(s, k);
      if s[c].time < s[k].time then SiftDown(Swap(s, k, c), c) else s
    else s
  }

  /** Sift-up only exchanges entries: it permutes `s` and keeps its cities distinct. */
  lemma {:induction false} SiftUpPermutes(s: seq<PathNode>, k: int)
    ensures multiset(SiftUp(s, k)) == multiset(s)
    ensures DistinctCities(s) ==> DistinctCities(SiftUp(s, k))
    decreases k
  {
    if 0 < k < |s| && s[k].time < s[Parent(k)].time {
      SwapFacts(s, k, Parent(k));
      SiftUpPermutes(Swap(s, k, Parent(k)), Parent(k));
    }
  }

  /** Sift-down only exchanges entries: it permutes `s` and keeps its cities distinct. */
  lemma {:induction false} SiftDownPermutes(s: seq<PathNode>, k: int)
    ensures multiset(SiftDown(s, k)) == multiset(s)
    ensures DistinctCities(s) ==> DistinctCities(SiftDown(s, k))
    decreases |s| - k
  {
    if 0 <= k && 2 * k + 1 < |s| {
      var c := SmallerChild(s, k);
      if s[c].time < s[k].time {
        SwapFacts(s, k, c);
        SiftDownPermutes(Swap(s, k, c), c);
      }
    }
  }

  /** One round of MinHeapBubbleDown's loop: swap with the chosen child and go on from there, or stop. */
  lemma SiftDownStep(s: seq<PathNode>, k: int)
    requires 0 <= k && 2 * k + 1 < |s|
    ensures s[SmallerChild(s, k)].time < s[k].time ==>
              SiftDown(s, k) == SiftDown(Swap(s, k, SmallerChild(s, k)), SmallerChild(s, k))
    ensures s[SmallerChild(s, k)].time >= s[k].time ==> SiftDown(s, k) == s
  {
  }

  /** MinHeapAddTo below capacity: append, then sift the new last entry up. */
  function Insert(s: seq<PathNode>, node: PathNode): (r: seq<PathNode>)
    ensures |r| == |s| + 1 && multiset(r) == multiset(s) + multiset{node}
    ensures DistinctCities(s) && !HasCity(s, node.city) ==> DistinctCities(r)
  {
    var t := s + [node];
    assert DistinctCities(s) && !HasCity(s, node.city) ==> DistinctCities(t) by {
      if DistinctCities(s) && !HasCity(s, node.city) {
        forall i, j | 0 <= i < j < |t| ensures t[i].city != t[j].city {
          assert t[i] == s[i];
        }
      }
    }
    assert multiset(t) == multiset(s) + multiset{node};
    assert multiset(SiftUp(t, |s|)) == multiset(t) && (DistinctCities(t) ==> DistinctCities(SiftUp(t, |s|))) by {
      SiftUpPermutes(t, |s|);
    }
    SiftUp(t, |s|)
  }

  /** MinHeapPop on a non-empty heap: the last entry replaces the root, which is then sifted down. */
  function RemoveRoot(s: seq<PathNode>): (r: seq<PathNode>)
    requires |s| > 0
    ensures |r| == |s| - 1 && multiset(r) == multiset(s[1..])
    ensures DistinctCities(s) ==> DistinctCities(r)
  {
    if |s| == 1 then []
    else
      var moved := [s[|s| - 1]] + s[1..|s| - 1];
      assert s[1..] == s[1..|s| - 1] + [s[|s| - 1]];
      assert DistinctCities(s) ==> DistinctCities(moved) by {
        if DistinctCities(s) {
          forall i, j | 0 <= i < j < |moved| ensures moved[i].city != moved[j].city {
            if i == 0 {
              assert moved[i] == s[|s| - 1] && moved[j] == s[j];
            } else {
              assert moved[i] == s[i] && moved[j] == s[j];
            }
          }
        }
      }
      assert multiset(moved) == multiset(s[1..]);
      assert multiset(SiftDown(moved, 0)) == multiset(moved) &&
             (DistinctCities(moved) ==> DistinctCities(SiftDown(moved, 0))) by {
        SiftDownPermutes(moved, 0);
      }
      SiftDown(moved, 0)
  }

  /** MinHeapChangeNodeWeight: out of range or unchanged weight leaves the heap as it is;
      otherwise the time is replaced and the entry sifted up (lower) or down (higher). */
  function ChangeKey(s: seq<PathNode>, i: int, w: int): (r: seq<PathNode>)
    ensures !(0 <= i < |s|) || w == s[i].time ==> r == s
    ensures 0 <= i < |s| ==> |r| == |s| && multiset(r) == multiset(s[i := PathNode(s[i].city, w)])
    ensures DistinctCities(s) ==> DistinctCities(r)
  {
    if !(0 <= i < |s|) || w == s[i].time then s
    else
      var t := s[i := PathNode(s[i].city, w)];
      assert DistinctCities(s) ==> DistinctCities(t) by {
        assert forall m :: 0 <= m < |s| ==> t[m].city == s[m].city;
      }
      assert multiset(SiftUp(t, i)) == multiset(t) && (DistinctCities(t) ==> DistinctCities(SiftUp(t, i))) by {
        SiftUpPermutes(t, i);
      }
      assert multiset(SiftDown(t, i)) == multiset(t) && (DistinctCities(t) ==> DistinctCities(SiftDown(t, i))) by {
        SiftDownPermutes(t, i);
      }
      if w < s[i].time then SiftUp(t, i) else SiftDown(t, i)
  }

  // ---------------------------------------------------------------------
  // Heap order

  /** Heap order everywhere except between `k` and its parent; `k`'s parent is
      no later than `k`'s children (the situation sift-up repairs). */
  ghost predicate HeapExceptUp(s: seq<PathNode>, k: int)
  {
    0 <= k < |s| &&
    (forall j :: 0 < j < |s| && j != k ==> s[Parent(j)].time <= s[j].time) &&
    (k > 0 ==> forall j :: 0 < j < |s| && Parent(j) == k ==> s[Parent(k)].time <= s[j].time)
  }

  /** Heap order everywhere except between `k` and its children; `k`'s parent is
      no later than `k`'s children (the situation sift-down repairs). */
  ghost predicate HeapExceptDown(s: seq<PathNode>, k: int)
  {
    0 <= k < |s| &&
    (forall j :: 0 < j < |s| && Parent(j) != k ==> s[Parent(j)].time <= s[j].time) &&
    (k > 0 ==> forall j :: 0 < j < |s| && Parent(j) == k ==> s[Parent(k)].time <= s[j].time)
  }

  /** Sift-up restores heap order when it held everywhere except at the moved index. */
  lemma {:induction false} SiftUpRestores(s: seq<PathNode>, k: int)
    requires HeapExceptUp(s, k)
    ensures HeapOrdered(SiftUp(s, k))
    decreases k
  {
    if 0 < k && s[k].time < s[Parent(k)].time {
      var p := Parent(k);
      var t := Swap(s, k, p);
      forall j | 0 < j < |t| && j != p
        ensures t[Parent(j)].time <= t[j].time
      {
        if j == k {
        } else if Parent(j) == k {
          assert t[j] == s[j];
        } else if Parent(j) == p {
          assert t[j] == s[j];
          assert s[p].time <= s[j].time;
        } else {
          assert t[j] == s[j];
        }
      }
      if p > 0 {
        forall j | 0 < j < |t| && Parent(j) == p
          ensures t[Parent(p)].time <= t[j].time
        {
          assert t[Parent(p)] == s[Parent(p)];
          assert s[Parent(p)].time <= s[p].time;
          if j != k {
            assert t[j] == s[j];
            assert s[p].time <= s[j].time;
          }
        }
      }
      assert HeapExceptUp(t, p);
      SiftUpRestores(t, p);
    } else {
      forall j | 0 < j < |s|
        ensures s[Parent(j)].time <= s[j].time
      {
      }
    }
  }

  /** Sift-down restores heap order when it held everywhere except at the moved index. */
  lemma {:induction false} SiftDownRestores(s: seq<PathNode>, k: int)
    requires HeapExceptDown(s, k)
    ensures HeapOrdered(SiftDown(s, k))
    decreases |s| - k
  {
    if 2 * k + 1 < |s| && s[SmallerChild(s, k)].time < s[k].time {
      var c := SmallerChild(s, k);
      SmallerChildIsLeast(s, k);
      var t := Swap(s, k, c);
      forall j | 0 < j < |t| && Parent(j) != c
        ensures t[Parent(j)].time <= t[j].time
      {
        if j == c {
        } else if Parent(j) == k {
          assert t[j] == s[j];
        } else if j == k {
          assert t[Parent(k)] == s[Parent(k)];
        } else {
          assert t[j] == s[j];
          assert t[Parent(j)] == s[Parent(j)];
        }
      }
      forall j | 0 < j < |t| && Parent(j) == c
        ensures t[Parent(c)].time <= t[j].time
      {
        assert t[j] == s[j];
      }
      assert HeapExceptDown(t, c);
      SiftDownRestores(t, c);
    } else {
      forall j | 0 < j < |s|
        ensures s[Parent(j)].time <= s[j].time
      {
        if Parent(j) == k {
          SmallerChildIsLeast(s, k);
        }
      }
    }
  }

  /** In a heap the root's time is the least of all. */
  lemma {:induction false} RootIsMinimum(s: seq<PathNode>, i: int)
    requires HeapOrdered(s) && 0 <= i < |s|
    ensures s[0].time <= s[i].time
    decreases i
  {
    if i > 0 {
      RootIsMinimum(s, Parent(i));
    }
  }

  /** MinHeapAddTo keeps a heap a heap. */
  lemma InsertKeepsOrder(s: seq<PathNode>, node: PathNode)
    requires HeapOrdered(s)
    ensures HeapOrdered(Insert(s, node))
  {
    var t := s + [node];
    assert forall j :: 0 < j < |t| && j != |s| ==> t[j] == s[j] && t[Parent(j)] == s[Parent(j)];
    SiftUpRestores(t, |s|);
  }

  /** MinHeapPop keeps a heap a heap. */
  lemma RemoveRootKeepsOrder(s: seq<PathNode>)
    requires HeapOrdered(s) && |s| > 0
    ensures HeapOrdered(RemoveRoot(s))
  {
    if |s| > 1 {
      var moved := [s[|s| - 1]] + s[1..|s| - 1];
      forall j | 0 < j < |moved| && Parent(j) != 0
        ensures moved[Parent(j)].time <= moved[j].time
      {
        assert moved[j] == s[j] && moved[Parent(j)] == s[Parent(j)];
      }
      SiftDownRestores(moved, 0);
    }
  }

  /** MinHeapChangeNodeWeight keeps a heap a heap, whichever way the time moves. */
  lemma ChangeKeyKeepsOrder(s: seq<PathNode>, i: int, w: int)
    requires HeapOrdered(s)
    ensures HeapOrdered(ChangeKey(s, i, w))
  {
    if 0 <= i < |s| && w != s[i].time {
      var t := s[i := PathNode(s[i].city, w)];
      if w < s[i].time {
        forall j | 0 < j < |t| && j != i
          ensures t[Parent(j)].time <= t[j].time
        {
          assert t[j] == s[j];
        }
        if i > 0 {
          forall j | 0 < j < |t| && Parent(j) == i
            ensures t[Parent(i)].time <= t[j].time
          {
            assert t[j] == s[j] && t[Parent(i)] == s[Parent(i)];
          }
        }
        SiftUpRestores(t, i);
      } else {
        forall j | 0 < j < |t| && Parent(j) != i
          ensures t[Parent(j)].time <= t[j].time
        {
          if j != i {
            assert t[j] == s[j] && t[Parent(j)] == s[Parent(j)];
          }
        }
        if i > 0 {
          forall j | 0 < j < |t| && Parent(j) == i
            ensures t[Parent(i)].time <= t[j].time
          {
            assert t[j] == s[j] && t[Parent(i)] == s[Parent(i)];
          }
        }
        SiftDownRestores(t, i);
      }
    }
  }

  // ---------------------------------------------------------------------
  // Strict comparisons: equal times are never exchanged

  /** Every entry sift-up displaces has a time strictly greater than the rising entry's. */
  lemma {:induction false} SiftUpDisplacesOnlyLater(s: seq<PathNode>, k: int)
    requires 0 <= k < |s|
    ensures forall i :: 0 <= i < |s| && SiftUp(s, k)[i] != s[i] ==>
              SiftUp(s, k)[i] == s[k] || SiftUp(s, k)[i].time > s[k].time
    decreases k
  {
    if 0 < k && s[k].time < s[Parent(k)].time {
      var p := Parent(k);
      var t := Swap(s, k, p);
      SiftUpDisplacesOnlyLater(t, p);
    }
  }

  /** Every entry sift-down displaces has a time strictly smaller than the sinking entry's. */
  lemma {:induction false} SiftDownDisplacesOnlyEarlier(s: seq<PathNode>, k: int)
    requires 0 <= k < |s|
    ensures forall i :: 0 <= i < |s| && SiftDown(s, k)[i] != s[i] ==>
              SiftDown(s, k)[i] == s[k] || SiftDown(s, k)[i].time < s[k].time
    decreases |s| - k
  {
    if 2 * k + 1 < |s| && s[SmallerChild(s, k)].time < s[k].time {
      var c := SmallerChild(s, k);
      var t := Swap(s, k, c);
      SiftDownDisplacesOnlyEarlier(t, c);
    }
  }

  /** On a tie between two children that are both smaller, sift-down follows the right child. */
  lemma TieGoesRight(s: seq<PathNode>, k: int)
    requires 0 <= k && 2 * k + 2 < |s|
    requires s[2 * k + 1].time == s[2 * k + 2].time < s[k].time
    ensures SiftDown(s, k) == SiftDown(Swap(s, k, 2 * k + 2), 2 * k + 2)
  {
  }
}
