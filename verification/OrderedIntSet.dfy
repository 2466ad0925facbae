/** A growable int array that is used either as a sorted set or as a value column beside one. */
module OrderedIntSets {
  import opened IntArrays

  class OrderedIntSet {
    const orderedBySorting: bool
    var elements: array<int>
    var elementCount: nat
    const sizeIncrease: nat

    /** An ordered set keeps padding behind its last element so that the whole array can be searched. */
    ghost predicate Valid()
      reads this, elements
    {
      && elementCount <= elements.Length && sizeIncrease > 0
      && (orderedBySorting ==> forall i :: elementCount <= i < elements.Length ==> elements[i] == MAX_VALUE)
    }

    ghost function Contents(): (s: seq<int>)
      reads this, elements
      requires elementCount <= elements.Length
    {
      elements[..elementCount]
    }

    constructor (orderedBySorting: bool, initialSize: nat, sizeIncrease: nat)
      requires sizeIncrease > 0
      ensures Valid() && fresh(elements) && Contents() == []
      ensures this.orderedBySorting == orderedBySorting
    {
      this.orderedBySorting := orderedBySorting;
      this.sizeIncrease := sizeIncrease;
      elements := new int[initialSize](i => MAX_VALUE);
      elementCount := 0;
    }

    method InsertTail(x: int)
      requires Valid()
      modifies this, elements
      ensures Valid() && (elements == old(elements) || fresh(elements))
      ensures Contents() == old(Contents()) + [x]
    {
      if elementCount == elements.Length {
        Grow();
      }
      elements[elementCount] := x;
      elementCount := elementCount + 1;
    }

    method RemoveAtIdx(idx: nat)
      requires Valid() && idx < |Contents()|
      modifies this, elements
      ensures Valid() && elements == old(elements)
      ensures Contents() == Remove(old(Contents()), idx)
    {
      ShiftLeft(elements, idx, elementCount);
      elementCount := elementCount - 1;
      elements[elementCount] := MAX_VALUE;
    }

    method InsertAtIdx(x: int, idx: nat)
      requires Valid() && idx <= |Contents()|
      modifies this, elements
      ensures Valid() && (elements == old(elements) || fresh(elements))
      ensures Contents() == Insert(old(Contents()), idx, x)
    {
      if elementCount == elements.Length {
        Grow();
      }
      InsertAt(elements, idx, elementCount, x);
      elementCount := elementCount + 1;
    }

    /** Add x to an ordered set; the answer is its new index, or -1 if it was there already. */
    method InsertSorted(x: int) returns (idx: int)
      requires Valid() && orderedBySorting && Sorted(Contents()) && BelowMax(Contents()) && x < MAX_VALUE
      modifies this, elements
      ensures Valid() && (elements == old(elements) || fresh(elements))
      ensures idx == -1 <==> x in old(Contents())
      ensures idx == -1 ==> Contents() == old(Contents())
      ensures idx != -1 ==> 0 <= idx <= old(|Contents()|) && Contents() == Insert(old(Contents()), idx, x)
      ensures Sorted(Contents())
    {
      if elementCount == elements.Length {
        Grow();
      }
      idx := BinarySearch(elements, elementCount, x);
      if idx >= 0 {
        return -1;
      }
      idx := (idx + 1) * (-1);
      IntArrays.InsertSorted(Contents(), idx, x);
      InsertAt(elements, idx, elementCount, x);
      elementCount := elementCount + 1;
    }

    /** None where the program throws IndexOutOfBoundsException. */
    function Get(idx: nat): (x: int)
      reads this, elements
      requires Valid() && idx < |Contents()|
      ensures x == Contents()[idx]
    {
      elements[idx]
    }

    function Size(): (n: nat)
      reads this, elements
      requires Valid()
      ensures n == |Contents()|
    {
      elementCount
    }

    method GetIdx(x: int) returns (idx: int)
      requires Valid() && orderedBySorting && Sorted(Contents()) && BelowMax(Contents()) && x < MAX_VALUE
      ensures SearchResult(Contents(), x, idx)
    {
      idx := BinarySearch(elements, elementCount, x);
    }

    method UpdateValue(newVal: int, idx: nat)
      requires Valid() && idx < |Contents()|
      modifies elements
      ensures Valid() && Contents() == old(Contents())[idx := newVal]
    {
      elements[idx] := newVal;
    }

    method MakeSpace(numOfElements: nat)
      requires Valid()
      modifies this
      ensures Valid() && (elements == old(elements) || fresh(elements))
      ensures Contents() == old(Contents()) && elements.Length - elementCount >= numOfElements
    {
      if elements.Length - elementCount < numOfElements {
        elements := CopyOf(elements, elements.Length + numOfElements, MAX_VALUE);
      }
    }

    method Clear()
      requires Valid()
      modifies this, elements
      ensures Valid() && elements == old(elements) && Contents() == []
    {
      elementCount := 0;
      if orderedBySorting {
        forall i | 0 <= i < elements.Length {
          elements[i] := MAX_VALUE;
        }
      }
    }

    method ToArray() returns (s: seq<int>)
      requires Valid()
      ensures s == Contents()
    {
      s := elements[..elementCount];
    }

    method Grow()
      requires Valid()
      modifies this
      ensures Valid() && fresh(elements) && elementCount == old(elementCount) && Contents() == old(Contents())
      ensures elements.Length == old(elements.Length) + sizeIncrease
    {
      elements := CopyOf(elements, elements.Length + sizeIncrease, MAX_VALUE);
    }
  }
}
