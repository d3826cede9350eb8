/**
 * struct MinHeap: a fixed-capacity array of path nodes of which the first
 * `numElements` form the heap. Each method is proved to leave the array
 * prefix equal to the corresponding function of heap_spec.dfy applied to
 * the prefix it found.
 */
module MinHeaps {
  import opened CInt
  import opened PathNodes
  import opened HeapSpec

  /** Whether MinHeapPop wrote its out-parameter. */
  datatype Option<T> = None | Some(value: T)

  /** The array length MinHeapInit allocates: `maxElements` slots, none when it is not positive. */
  function Capacity(maxElements: int): nat
  {
    if maxElements > 0 then maxElements else 0
  }

  class MinHeap {
    var numElements: int
    const maxElements: int
    const elements: array<PathNode>

    ghost predicate Valid()
      reads this
    {
      elements.Length == Capacity(maxElements) && 0 <= numElements <= elements.Length
    }

    /** The heap as a sequence: the occupied prefix of the array. */
    ghost function Contents(): seq<PathNode>
      reads this, elements
      requires Valid()
    {
      elements[..numElements]
    }

    /** MinHeapInit: an empty heap with room for `maxElements` nodes. */
    constructor (maxElements: int)
      ensures Valid() && fresh(elements)
      ensures this.maxElements == maxElements && Contents() == []
    {
      this.maxElements := maxElements;
      numElements := 0;
      elements := new PathNode[Capacity(maxElements)](_ => PathNode(0, 0));
    }

    /** The three-assignment exchange through `temp` that both sifts perform. */
    method Exchange(i: int, j: int)
      requires Valid() && 0 <= i < numElements && 0 <= j < numElements
      modifies elements
      ensures Valid()
      ensures Contents() == Swap(old(Contents()), i, j)
    {
      ghost var before := Contents();
      var temp := elements[i];
      elements[i] := elements[j];
      elements[j] := temp;
      assert Contents() == Swap(before, i, j);
    }

    /** MinHeapBubbleDown; a no-op unless `0 <= index < numElements`. */
    method BubbleDown(index: int)
      requires Valid()
      modifies elements
      ensures Valid()
      ensures Contents() == SiftDown(old(Contents()), index)
    {
      if 0 <= index < numElements {
        ghost var cur := Contents();
        var i := index;
        var childIndexLeft := i * 2 + 1;
        var childIndexRight := childIndexLeft + 1;
        while childIndexLeft < numElements
          invariant Valid() && elements[..numElements] == cur
          invariant 0 <= i < numElements
          invariant childIndexLeft == 2 * i + 1 && childIndexRight == childIndexLeft + 1
          invariant SiftDown(cur, i) == SiftDown(old(Contents()), index)
          decreases numElements - i
        {
          var smallestChild := childIndexRight;
          if childIndexRight >= numElements {
            smallestChild := childIndexLeft;
          } else if elements[childIndexLeft].time < elements[childIndexRight].time {
            smallestChild := childIndexLeft;
          }
          assert smallestChild == SmallerChild(cur, i) by {
            assert cur[childIndexLeft] == elements[childIndexLeft];
            assert childIndexRight < numElements ==> cur[childIndexRight] == elements[childIndexRight];
          }
          SiftDownStep(cur, i);
          if elements[smallestChild].time < elements[i].time {
            assert cur[i] == elements[i] && cur[smallestChild] == elements[smallestChild];
            Exchange(i, smallestChild);
            cur := Swap(cur, i, smallestChild);
          } else {
            assert cur[i] == elements[i] && cur[smallestChild] == elements[smallestChild];
            break;
          }
          i := smallestChild;
          childIndexLeft := i * 2 + 1;
          childIndexRight := childIndexLeft + 1;
        }
      }
    }

    /** MinHeapBubbleUp; a no-op unless `0 < index < numElements`. The parent index is
        computed with C's division, which gives 0 (not -1) at the root. */
    method BubbleUp(index: int)
      requires Valid()
      modifies elements
      ensures Valid()
      ensures Contents() == SiftUp(old(Contents()), index)
    {
      if index < numElements {
        var i := index;
        var parentIndex := CDiv(i - 1, 2);
        while i > 0 && elements[i].time < elements[parentIndex].time
          invariant i < numElements
          invariant i > 0 ==> parentIndex == Parent(i)
          invariant SiftUp(elements[..numElements], i) == SiftUp(old(Contents()), index)
          decreases i
        {
          Exchange(i, parentIndex);
          i := parentIndex;
          parentIndex := CDiv(i - 1, 2);
        }
      }
    }

    /** MinHeapAddTo: a no-op when full; otherwise the node is appended and sifted up. */
    method AddTo(node: PathNode)
      requires Valid()
      modifies this, elements
      ensures Valid()
      ensures old(numElements) < maxElements ==>
                numElements == old(numElements) + 1 && Contents() == Insert(old(Contents()), node)
      ensures old(numElements) >= maxElements ==>
                numElements == old(numElements) && Contents() == old(Contents())
    {
      if numElements < maxElements {
        ghost var before := Contents();
        elements[numElements] := node;
        numElements := numElements + 1;
        assert elements[..numElements] == before + [node];
        BubbleUp(numElements - 1);
      }
    }

    /** MinHeapPop: on an empty heap nothing is written; otherwise the root is
        returned and the last entry takes its place before sifting down. */
    method Pop() returns (node: Option<PathNode>)
      requires Valid()
      modifies this, elements
      ensures Valid()
      ensures old(numElements) == 0 ==>
                node == None && numElements == 0 && Contents() == old(Contents())
      ensures old(numElements) > 0 ==>
                node == Some(old(Contents())[0]) && numElements == old(numElements) - 1 &&
                Contents() == RemoveRoot(old(Contents()))
    {
      if numElements > 0 {
        ghost var before := Contents();
        node := Some(elements[0]);
        numElements := numElements - 1;
        elements[0] := elements[numElements];
        if numElements > 0 {
          ghost var moved := [before[|before| - 1]] + before[1..|before| - 1];
          forall k | 0 <= k < numElements ensures elements[k] == moved[k] {
            if k > 0 { assert before[k] == old(elements[k]); }
          }
          assert elements[..numElements] == moved;
        }
        BubbleDown(0);
      } else {
        node := None;
      }
    }

    /** MinHeapFind: the lowest index holding `node.city`, or -1. */
    method Find(node: PathNode) returns (index: int)
      requires Valid()
      ensures -1 <= index < numElements
      ensures index >= 0 ==> elements[index].city == node.city
      ensures forall j :: 0 <= j < numElements && (index == -1 || j < index) ==> elements[j].city != node.city
    {
      for i := 0 to numElements
        invariant forall j :: 0 <= j < i ==> elements[j].city != node.city
      {
        if elements[i].city == node.city {
          return i;
        }
      }
      return -1;
    }

    /** MinHeapChangeNodeWeight: set the time at `index` and restore the order. */
    method ChangeNodeWeight(index: int, newWeight: int)
      requires Valid()
      modifies elements
      ensures Valid()
      ensures Contents() == ChangeKey(old(Contents()), index, newWeight)
    {
      if 0 <= index < numElements && newWeight != elements[index].time {
        ghost var before := Contents();
        if newWeight < elements[index].time {
          elements[index] := PathNode(elements[index].city, newWeight);
          assert Contents() == before[index := PathNode(before[index].city, newWeight)];
          BubbleUp(index);
        } else {
          elements[index] := PathNode(elements[index].city, newWeight);
          assert Contents() == before[index := PathNode(before[index].city, newWeight)];
          BubbleDown(index);
        }
      }
    }
  }
}
