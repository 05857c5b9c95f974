/** ObjectArray of objectarray.h: the growable array behind the frame pool and the
    preview FIFO. Its operations are those of a sequence. */
module ObjectArray {

  /** Elements are object addresses; 0 is NULL. */
  class ObjectArray {
    var elements: array<nat>
    var maxSize: nat
    var size: nat
    const minSize: nat

    ghost predicate Valid()
      reads this, elements
    {
      && size <= maxSize == elements.Length
      && forall i :: 0 <= i < size ==> elements[i] != 0
    }

    ghost function Contents(): (s: seq<nat>)
      requires Valid()
      reads this, elements
    {
      elements[..size]
    }

    constructor (initialCapacity: nat)
      ensures Valid() && Contents() == [] && fresh(elements) && minSize == initialCapacity
    {
      elements := new nat[initialCapacity];
      maxSize, size, minSize := initialCapacity, 0, initialCapacity;
    }

    /** size(int): reallocate; what does not fit is forgotten. */
    method Resize(newSize: nat)
      requires Valid()
      modifies this
      ensures Valid() && maxSize == newSize && (elements == old(elements) || fresh(elements))
      ensures Contents() == old(Contents())[..if old(size) < newSize then old(size) else newSize]
    {
      if newSize != maxSize {
        var newElements := new nat[newSize];
        var n := if newSize < maxSize then newSize else maxSize;
        for i := 0 to n
          invariant elements == old(elements) && elements.Length == maxSize == old(maxSize) && size == old(size)
          invariant elements[..] == old(elements[..]) && forall j :: 0 <= j < i ==> newElements[j] == elements[j]
        {
          newElements[i] := elements[i];
        }
        elements := newElements;
        maxSize := newSize;
        size := if size < newSize then size else newSize;
      }
    }

    /** put: append, growing the array when it is full; NULL is ignored. */
    method Put(item: nat) returns (n: nat)
      requires Valid()
      modifies this, elements
      ensures Valid() && n == size && (elements == old(elements) || fresh(elements))
      ensures Contents() == if item != 0 then old(Contents()) + [item] else old(Contents())
    {
      if item != 0 {
        if size >= maxSize {
          Resize(if maxSize != 0 then maxSize * 2 else 2);
        }
        elements[size] := item;
        size := size + 1;
      }
      n := size;
    }

    /** remove: take out the element at index, and close the gap. */
    method Remove(index: nat) returns (item: nat)
      requires Valid() && index < size
      modifies this, elements
      ensures Valid() && elements == old(elements) && item == old(Contents())[index]
      ensures Contents() == old(Contents())[..index] + old(Contents())[index + 1..]
    {
      item := elements[index];
      ghost var was := elements[..size];
      for i := index to size - 1
        invariant elements == old(elements) && size == old(size) && maxSize == old(maxSize)
        invariant forall j :: 0 <= j < size && !(index <= j < i) ==> elements[j] == was[j]
        invariant forall j :: index <= j < i ==> elements[j] == was[j + 1]
      {
        elements[i] := elements[i + 1];
      }
      size := size - 1;
      assert elements[..size] == was[..index] + was[index + 1..];
    }

    /** last: take out the last element; NULL if there is none. */
    method Last() returns (item: nat)
      requires Valid()
      modifies this
      ensures Valid() && elements == old(elements)
      ensures if old(Contents()) == [] then item == 0 && Contents() == []
              else Contents() + [item] == old(Contents())
    {
      if size > 0 {
        size := size - 1;
        item := elements[size];
      } else {
        item := 0;
      }
    }

    /** getIndex: where an object first occurs, or -1. */
    method GetIndex(item: nat) returns (index: int)
      requires Valid()
      ensures index == -1 ==> item !in Contents()
      ensures index != -1 ==> 0 <= index < size && Contents()[index] == item && item !in Contents()[..index]
    {
      index := -1;
      for i := 0 to size
        invariant index == -1 && item !in elements[..i]
      {
        if elements[i] == item {
          return i;
        }
      }
    }

    /** removeObject: take out the first occurrence of an object. */
    method RemoveObject(item: nat)
      requires Valid()
      modifies this, elements
      ensures Valid() && elements == old(elements)
      ensures if item in old(Contents()) then
                exists i :: 0 <= i < |old(Contents())| && old(Contents())[i] == item && item !in old(Contents())[..i]
                            && Contents() == old(Contents())[..i] + old(Contents())[i + 1..]
              else Contents() == old(Contents())
    {
      var index := GetIndex(item);
      if index != -1 {
        var _ := Remove(index);
      }
    }

    /** clear: empty the array and give it its first capacity again. */
    method Clear()
      requires Valid()
      modifies this
      ensures Valid() && Contents() == [] && maxSize == minSize && (elements == old(elements) || fresh(elements))
    {
      Resize(minSize);
      size := 0;
    }
  }
}
