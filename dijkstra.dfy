/**
 * DijkstraSearch: least travel times from city 0 over the packed table,
 * with a binary min-heap as the open list and a plain array as the closed
 * list. The printed report becomes the returned `Outcome`.
 */
module Dijkstra {
  import opened Adjacency
  import opened PathNodes
  import opened HeapSpec
  import opened MinHeaps
  import opened NodeArrays
  import opened Graphs
  import opened SearchInvariants
  import opened Relaxation

  /** What the search reports: the time for the message to reach every city, or that some city is unreachable. */
  datatype Outcome = ReachedAll(maxTime: int) | NoPath

  /** The inner `for` loop of DijkstraSearch: relax every hop from the node just closed. It changes
      the open list only: a city that is not closed, has a non-blocked hop from `lowestNode` and is
      absent from the open list or there with a strictly later time gets the time through that hop,
      and every other city keeps its entry or its absence. Afterwards every closed node has been
      relaxed towards every city. */
  method RelaxNeighbours(data: Data, openList: MinHeap, closedList: NodeArray, lowestNode: PathNode,
                         ghost open: seq<PathNode>, ghost closed: seq<PathNode>)
    returns (ghost relaxed: seq<PathNode>)
    requires openList.Valid() && closedList.Valid() && openList.elements != closedList.elements
    requires openList.maxElements == data.numCities && WellFormed(data)
    requires openList.Contents() == open && closedList.Contents() == closed
    requires RelaxInv(data, open, closed, 0) && closed[|closed| - 1] == lowestNode
    modifies openList, openList.elements
    ensures openList.Valid() && openList.Contents() == relaxed
    ensures SearchInv(data, relaxed, closed)
    ensures forall v :: RelaxedEntry(data, open, relaxed, closed, lowestNode, v)
  {
    ProgressStart(data, open, closed, lowestNode);
    for city := 0 to data.numCities
      invariant openList.Valid() && openList.maxElements == data.numCities
      invariant RelaxInv(data, openList.Contents(), closed, city)
      invariant Progress(data, open, openList.Contents(), closed, lowestNode, city)
    {
      RelaxCity(data, openList, closedList, lowestNode, city, open, closed);
    }
    relaxed := openList.Contents();
    RelaxDone(data, relaxed, closed);
    ProgressDone(data, open, relaxed, closed, lowestNode);
  }

  /** One pass of the inner `for` loop of DijkstraSearch: relax the hop from `lowestNode` to `city`. */
  method RelaxCity(data: Data, openList: MinHeap, closedList: NodeArray, lowestNode: PathNode, city: int,
                   ghost open0: seq<PathNode>, ghost closed: seq<PathNode>)
    requires openList.Valid() && closedList.Valid() && openList.elements != closedList.elements
    requires openList.maxElements == data.numCities && WellFormed(data)
    requires closedList.Contents() == closed && 0 <= city < data.numCities
    requires RelaxInv(data, openList.Contents(), closed, city) && closed[|closed| - 1] == lowestNode
    requires Progress(data, open0, openList.Contents(), closed, lowestNode, city)
    modifies openList, openList.elements
    ensures openList.Valid()
    ensures RelaxInv(data, openList.Contents(), closed, city + 1)
    ensures Progress(data, open0, openList.Contents(), closed, lowestNode, city + 1)
  {
    ghost var open := openList.Contents();
    if lowestNode.city == city {
      // no hop from a city to itself
      RelaxSkip(data, open, closed, city);
      assert closed[|closed| - 1].city == city;
      ProgressSkip(data, open0, open, closed, lowestNode, city);
      return;
    }
    var potentialNode := PathNode(city, 0);
    var closedIndex := closedList.Find(potentialNode);
    if closedIndex >= 0 {
      // already on the closed list
      assert closed[closedIndex].city == city;
      RelaxSkip(data, open, closed, city);
      ProgressSkip(data, open0, open, closed, lowestNode, city);
      return;
    }
    assert !HasCity(closed, city) by {
      forall j | 0 <= j < |closed| ensures closed[j].city != city {
        assert closed[j] == closedList.elements[j];
      }
    }
    var openListIndex := openList.Find(potentialNode);
    assert 0 <= lowestNode.city < data.numCities;
    InRange(data.numCities, lowestNode.city, city);
    SlotIsTableIndex(lowestNode.city, city);
    var moveTime := data.table[TableIndex(lowestNode.city, city)];
    assert moveTime == Weight(data, lowestNode.city, city);
    if moveTime >= 0 {
      if openListIndex != -1 {
        assert open[openListIndex] == openList.elements[openListIndex];
        if openList.elements[openListIndex].time > lowestNode.time + moveTime {
          var newTime := lowestNode.time + moveTime;
          RelaxDecrease(data, open, closed, city, openListIndex, newTime);
          ProgressDecrease(data, open0, open, closed, lowestNode, city, openListIndex, newTime);
          openList.ChangeNodeWeight(openListIndex, newTime);
        } else {
          assert OpenWithin(open, city, lowestNode.time + moveTime);
          RelaxSkip(data, open, closed, city);
          assert HasNode(open, city, open[openListIndex].time);
          ProgressSkip(data, open0, open, closed, lowestNode, city);
        }
      } else {
        assert !HasCity(open, city) by {
          forall j | 0 <= j < |open| ensures open[j].city != city {
            assert open[j] == openList.elements[j];
          }
        }
        potentialNode := PathNode(city, lowestNode.time + moveTime);
        RelaxInsert(data, open, closed, city, potentialNode);
        ProgressInsert(data, open0, open, closed, lowestNode, city, potentialNode);
        openList.AddTo(potentialNode);
      }
    } else {
      RelaxSkip(data, open, closed, city);
      ProgressSkip(data, open0, open, closed, lowestNode, city);
    }
  }

  /** The closing `for` loop of DijkstraSearch: the largest time on the closed list, or 0 if none is positive. */
  method LongestTime(closedList: NodeArray) returns (longestTime: int)
    requires closedList.Valid()
    ensures longestTime == MaxTime(closedList.Contents())
  {
    longestTime := 0;
    for index := 0 to closedList.numElements
      invariant longestTime == MaxTime(closedList.elements[..index])
    {
      assert closedList.elements[..index + 1][..index] == closedList.elements[..index];
      if closedList.elements[index].time > longestTime {
        longestTime := closedList.elements[index].time;
      }
    }
  }

  /** The `while` loop of DijkstraSearch: pop the nearest open node, append it to the closed list and
      relax its hops, until the open list is empty. */
  method Search(data: Data, openList: MinHeap, closedList: NodeArray) returns (ghost closed: seq<PathNode>)
    requires openList.Valid() && closedList.Valid() && openList.elements != closedList.elements
    requires openList.maxElements == data.numCities && closedList.maxElements == data.numCities
    requires WellFormed(data)
    requires data.numCities > 0 ==> SearchInv(data, openList.Contents(), closedList.Contents())
    requires data.numCities <= 0 ==> openList.numElements == 0 && closedList.numElements == 0
    modifies openList, openList.elements, closedList, closedList.elements
    ensures openList.Valid() && closedList.Valid() && closedList.Contents() == closed
    ensures openList.Contents() == []
    ensures data.numCities > 0 ==> SearchInv(data, [], closed)
    ensures data.numCities <= 0 ==> closed == []
  {
    var n := data.numCities;
    ghost var open := openList.Contents();
    closed := closedList.Contents();
    while openList.numElements > 0
      invariant openList.Valid() && closedList.Valid()
      invariant openList.maxElements == n && closedList.maxElements == n
      invariant openList.Contents() == open && closedList.Contents() == closed
      invariant n > 0 ==> SearchInv(data, open, closed)
      invariant n <= 0 ==> |open| == 0 && |closed| == 0
      decreases n - |closed|
    {
      PopStep(data, open, closed);
      var popped := openList.Pop();
      var lowestNode := popped.value;
      closedList.AddTo(lowestNode);
      closed := closed + [open[0]];
      open := RelaxNeighbours(data, openList, closedList, lowestNode, RemoveRoot(open), closed);
    }
    assert open == [];
  }

  /** The report once the open list is empty: it says "reached all" exactly when every city is reachable
      and then gives the farthest city's least time; the closed list holds least times in popping order. */
  lemma Reported(data: Data, closed: seq<PathNode>, r: Outcome)
    requires data.numCities > 0 && SearchInv(data, [], closed)
    requires r == if |closed| == data.numCities then ReachedAll(MaxTime(closed)) else NoPath
    ensures r.ReachedAll? <==> forall v :: 0 <= v < data.numCities ==> Connected(data, v)
    ensures r.ReachedAll? ==> IsFarthest(data, r.maxTime)
    ensures DistinctCities(closed) && SortedByTime(closed) && ClosedAreShortest(data, closed)
    ensures r.ReachedAll? <==> |closed| == data.numCities
  {
    Concluded(data, closed);
    if |closed| == data.numCities {
      Farthest(data, closed, MaxTime(closed));
    }
  }

  /** DijkstraSearch on successfully parsed data. Both lists are allocated with room for
      `numCities` nodes; `closed` is the closed list as it stands at the end. */
  method DijkstraSearch(data: Data) returns (r: Outcome, ghost closed: seq<PathNode>)
    requires WellFormed(data)
    ensures data.numCities == 0 ==> r == ReachedAll(0)
    ensures data.numCities < 0 ==> r == NoPath
    ensures data.numCities > 0 ==>
              (r.ReachedAll? <==> forall v :: 0 <= v < data.numCities ==> Connected(data, v))
    ensures data.numCities > 0 && r.ReachedAll? ==> IsFarthest(data, r.maxTime)
    ensures DistinctCities(closed) && SortedByTime(closed) && ClosedAreShortest(data, closed)
    ensures r.ReachedAll? <==> |closed| == data.numCities
  {
    var n := data.numCities;
    var openList := new MinHeap(n);
    var closedList := new NodeArray(n);
    openList.AddTo(PathNode(0, 0));
    if n > 0 {
      assert openList.Contents() == [PathNode(0, 0)];
      Start(data);
    }

    closed := Search(data, openList, closedList);

    if closedList.numElements == closedList.maxElements {
      // every city was visited
      var longestTime := LongestTime(closedList);
      r := ReachedAll(longestTime);
    } else {
      r := NoPath;
    }
    if n > 0 {
      Reported(data, closed, r);
    }
  }
}
