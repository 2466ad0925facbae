/** A stack of ints that can also be drained from its bottom end. */
module IntStacks {
  import opened IntArrays

  class IntStack {
    var elements: array<int>
    var nextIdx: nat
    var fifoIdx: nat
    const sizeIncrease: nat
    ghost var Repr: set<object>

    ghost predicate Valid()
      reads this, Repr
    {
      Repr == {this, elements} && fifoIdx <= nextIdx <= elements.Length && sizeIncrease > 0
    }

    /** What is still to be popped, bottom first. */
    ghost function Contents(): seq<int>
      reads this, Repr
      requires Valid()
    {
      elements[fifoIdx..nextIdx]
    }

    constructor (size: nat)
      requires size > 0
      ensures Valid() && fresh(Repr) && Contents() == []
    {
      sizeIncrease := size;
      nextIdx, fifoIdx := 0, 0;
      elements := new int[size];
      new;
      Repr := {this, elements};
    }

    method Clear()
      requires Valid()
      modifies this
      ensures Valid() && Repr == old(Repr) && Contents() == []
    {
      nextIdx, fifoIdx := 0, 0;
    }

    /** Take the oldest element. */
    method PopFifo() returns (x: int)
      requires Valid() && Contents() != []
      modifies this
      ensures Valid() && Repr == old(Repr)
      ensures old(Contents()) == [x] + Contents()
    {
      x := elements[fifoIdx];
      fifoIdx := fifoIdx + 1;
    }

    /** Take the newest element. */
    method Pop() returns (x: int)
      requires Valid() && Contents() != []
      modifies this
      ensures Valid() && Repr == old(Repr)
      ensures old(Contents()) == Contents() + [x]
    {
      nextIdx := nextIdx - 1;
      x := elements[nextIdx];
    }

    method Push(x: int)
      requires Valid()
      modifies Repr
      ensures Valid() && fresh(Repr - old(Repr))
      ensures Contents() == old(Contents()) + [x]
    {
      if nextIdx == elements.Length {
        elements := CopyOf(elements, elements.Length + sizeIncrease, 0);
        Repr := {this, elements};
      }
      elements[nextIdx] := x;
      nextIdx := nextIdx + 1;
    }

    predicate IsEmpty()
      reads this, Repr
      requires Valid()
      ensures IsEmpty() <==> Contents() == []
    {
      nextIdx == fifoIdx
    }
  }
}
