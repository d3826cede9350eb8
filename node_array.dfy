/** struct NodeArray: the closed list, a bounded append-only buffer of path nodes. */
module NodeArrays {
  import opened PathNodes

  class NodeArray {
    var numElements: int
    const maxElements: int
    const elements: array<PathNode>

    ghost predicate Valid()
      reads this
    {
      elements.Length == (if maxElements > 0 then maxElements else 0) &&
      0 <= numElements <= elements.Length
    }

    /** The stored nodes, in the order they were added. */
    ghost function Contents(): seq<PathNode>
      reads this, elements
      requires Valid()
    {
      elements[..numElements]
    }

    /** NodeArrayInit: an empty list with room for `maxElements` nodes. */
    constructor (maxElements: int)
      ensures Valid() && fresh(elements)
      ensures this.maxElements == maxElements && Contents() == []
    {
      this.maxElements := maxElements;
      numElements := 0;
      elements := new PathNode[if maxElements > 0 then maxElements else 0](_ => PathNode(0, 0));
    }

    /** NodeArrayAddTo: append when below capacity, otherwise do nothing. */
    method AddTo(node: PathNode)
      requires Valid()
      modifies this, elements
      ensures Valid()
      ensures old(numElements) < maxElements ==>
                numElements == old(numElements) + 1 && Contents() == old(Contents()) + [node]
      ensures old(numElements) >= maxElements ==>
                numElements == old(numElements) && Contents() == old(Contents())
    {
      if numElements < maxElements {
        elements[numElements] := node;
        numElements := numElements + 1;
      }
    }

    /** NodeArrayFind: the lowest index holding `node.city`, or -1. */
    method Find(node: PathNode) returns (index: int)
      requires Valid()
      ensures -1 <= index < numElements
      ensures index >= 0 ==> elements[index].city == node.city
      ensures forall j :: 0 <= j < numElements && (index == -1 || j < index) ==> elements[j].city != node.city
    {
      for i := 0 to numElements
        invariant forall j :: 0 <= j < i ==> elements[j].city != node.city
      {
        if elements[i].city == node.city {
          return i;
        }
      }
      return -1;
    }
  }
}
