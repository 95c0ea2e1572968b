// source/vec.c: growable array.

module Vecs {

  class Vec<T(0)> {
    var data: array<T>
    var len: nat
    var cap: nat

    ghost predicate Valid()
      reads this
    {
      len <= cap == data.Length && 0 < cap
    }

    /** The sequence the vector stands for. */
    ghost function Contents(): (s: seq<T>)
      requires Valid()
      reads this, data
    {
      data[..len]
    }

    constructor (capacity: nat)
      requires 0 < capacity
      ensures Valid() && fresh(data) && cap == capacity
      ensures Contents() == []
    {
      data := new T[capacity];
      len, cap := 0, capacity;
    }

    method At(index: int) returns (value: T)
      requires Valid() && 0 <= index < len
      ensures value == Contents()[index]
    {
      value := data[index];
    }

    /** Appends; doubles the capacity by moving to a new block when the old one is full. */
    method Push(value: T)
      requires Valid()
      modifies this, data
      ensures Valid()
      ensures Contents() == old(Contents()) + [value]
      ensures if old(len) < old(cap) then data == old(data) && cap == old(cap)
              else fresh(data) && cap == 2 * old(cap)
    {
      if len >= cap {
        var newCap := cap * 2;
        var newData := new T[newCap];
        forall i | 0 <= i < len {
          newData[i] := data[i];
        }
        data, cap := newData, newCap;
      }
      len := len + 1;
      data[len - 1] := value;
    }

    /** Removes by moving the last element into the gap: order is not kept, the multiset is. */
    method SwapRemove(index: int)
      requires Valid() && 0 <= index < len
      modifies this`len, data
      ensures Valid() && data == old(data) && cap == old(cap)
      ensures Contents() == SwapRemoved(old(Contents()), index)
    {
      if index != len - 1 {
        data[index] := data[len - 1];
      }
      len := len - 1;
    }
  }

  function SwapRemoved<T>(s: seq<T>, index: nat): (r: seq<T>)
    requires index < |s|
    ensures |r| == |s| - 1
  {
    s[index := s[|s| - 1]][..|s| - 1]
  }

  lemma SwapRemovedMultiset<T>(s: seq<T>, index: nat)
    requires index < |s|
    ensures multiset(s) == multiset(SwapRemoved(s, index)) + multiset{s[index]}
  {
    var last := s[|s| - 1];
    var t := s[index := last];
    assert multiset(t) == multiset(s) - multiset{s[index]} + multiset{last};
    assert t == t[..|s| - 1] + [last];
    assert multiset(t) == multiset(t[..|s| - 1]) + multiset{last};
  }
}
