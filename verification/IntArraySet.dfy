/** A set of ints kept as a sorted, padded array. */
module IntArraySets {
  import opened IntArrays

  ghost function ElementsOf(s: seq<int>): set<int> { set x | x in s }

  lemma InsertAddsOne(s: seq<int>, i: nat, x: int)
    requires i <= |s|
    ensures ElementsOf(Insert(s, i, x)) == ElementsOf(s) + {x}
  {
    assert s == s[..i] + s[i..];
  }

  class IntArraySet {
    var elements: array<int>
    var elementCount: nat
    const sizeIncrease: nat

    ghost predicate Valid()
      reads this, elements
    {
      && elementCount <= elements.Length && sizeIncrease > 0
      && Sorted(Contents()) && BelowMax(Contents())
      && (forall i :: elementCount <= i < elements.Length ==> elements[i] == MAX_VALUE)
    }

    ghost function Contents(): seq<int>
      reads this, elements
      requires elementCount <= elements.Length
    {
      elements[..elementCount]
    }

    ghost function Members(): set<int>
      reads this, elements
      requires Valid()
    {
      ElementsOf(Contents())
    }

    constructor (size: nat, sizeIncrease: nat)
      requires sizeIncrease > 0
      ensures Valid() && fresh(elements) && Members() == {}
    {
      this.sizeIncrease := sizeIncrease;
      elementCount := 0;
      elements := new int[size](i => MAX_VALUE);
    }

    method Contains(x: int) returns (found: bool)
      requires Valid() && x < MAX_VALUE
      ensures found <==> x in Members()
    {
      var idx := BinarySearch(elements, elementCount, x);
      found := idx >= 0;
    }

    method Add(x: int)
      requires Valid() && x < MAX_VALUE
      modifies this, elements
      ensures Valid() && (elements == old(elements) || fresh(elements))
      ensures Members() == old(Members()) + {x}
    {
      var idx := BinarySearch(elements, elementCount, x);
      if idx >= 0 {
        return;
      }
      ghost var before := Contents();
      if elementCount == elements.Length {
        elements := CopyOf(elements, elements.Length + sizeIncrease, MAX_VALUE);
      }
      idx := (idx + 1) * (-1);
      InsertSorted(before, idx, x);
      InsertAddsOne(before, idx, x);
      InsertAt(elements, idx, elementCount, x);
      elementCount := elementCount + 1;
      assert Contents() == Insert(before, idx, x);
    }
  }
}
