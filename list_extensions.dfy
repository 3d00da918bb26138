/** The List<T> extension helpers of ListExtensions.cs. A List<T> is modelled the way
    the helpers see it: an internal array and a size, with the list's elements being
    the first `size` slots of the array. */
module ListExtensions {

  /** The element sequence after `RemoveAtFast(i)`: the last element is written into
      slot `i`, then the last slot is dropped. */
  function SwapRemoved<T>(s: seq<T>, i: nat): seq<T>
    requires i < |s|
  {
    s[i := s[|s| - 1]][..|s| - 1]
  }

  /** Position by position: one element shorter, slot `i` holds the old last element
      (unless `i` was the last slot), every other slot below the new length is unchanged. */
  lemma SwapRemovedAt<T>(s: seq<T>, i: nat)
    requires i < |s|
    ensures |SwapRemoved(s, i)| == |s| - 1
    ensures i < |s| - 1 ==> SwapRemoved(s, i)[i] == s[|s| - 1]
    ensures forall k :: 0 <= k < |s| - 1 && k != i ==> SwapRemoved(s, i)[k] == s[k]
  {
  }

  /** `RemoveAtFast(i)` removes exactly one occurrence of `s[i]`. */
  lemma SwapRemovedMultiset<T>(s: seq<T>, i: nat)
    requires i < |s|
    ensures multiset(SwapRemoved(s, i)) == multiset(s) - multiset{s[i]}
  {
    var n := |s|;
    var init := s[..n - 1];
    assert s == init + [s[n - 1]];
    if i < n - 1 {
      assert SwapRemoved(s, i) == init[i := s[n - 1]];
      assert init[i] == s[i];
    } else {
      assert SwapRemoved(s, i) == init;
    }
  }

  /** The index `List.IndexOf` returns: the first position holding `v`, or -1. */
  function IndexOf<T(==)>(s: seq<T>, v: T): (i: int)
    ensures -1 <= i < |s|
    ensures i == -1 <==> v !in s
    ensures 0 <= i ==> s[i] == v && v !in s[..i]
  {
    if s == [] then -1
    else if s[0] == v then 0
    else
      var j := IndexOf(s[1..], v);
      assert s[1..] == s[..|s|][1..];
      if j < 0 then -1
      else
        assert s[..j + 1] == [s[0]] + s[1..][..j];
        j + 1
  }

  /** The element sequence after `MoveFast(o, t)`: the element at `o` is taken out and
      put back at `t`, the elements in between shifting one step toward `o`. */
  function Moved<T>(s: seq<T>, o: nat, t: nat): seq<T>
    requires o < |s| && t < |s|
  {
    if o < t then s[..o] + s[o + 1..t + 1] + [s[o]] + s[t + 1..]
    else if t < o then s[..t] + [s[o]] + s[t..o] + s[o + 1..]
    else s
  }

  /** Position by position: `t` receives the old `s[o]`, every slot from `o` up to `t`
      (or down to `t`) receives its neighbour on the `t` side, all other slots keep
      their element. */
  lemma MovedAt<T>(s: seq<T>, o: nat, t: nat)
    requires o < |s| && t < |s|
    ensures |Moved(s, o, t)| == |s|
    ensures Moved(s, o, t)[t] == s[o]
    ensures forall k :: o <= k < t ==> Moved(s, o, t)[k] == s[k + 1]
    ensures forall k :: t < k <= o ==> Moved(s, o, t)[k] == s[k - 1]
    ensures forall k :: 0 <= k < |s| && k < o && k < t ==> Moved(s, o, t)[k] == s[k]
    ensures forall k :: 0 <= k < |s| && k > o && k > t ==> Moved(s, o, t)[k] == s[k]
  {
    var r := Moved(s, o, t);
    if o < t {
      var a, b, c := s[..o], s[o + 1..t + 1], s[t + 1..];
      assert r == a + b + [s[o]] + c;
      assert |a + b| == t;
    } else if t < o {
      var a, b, c := s[..t], s[t..o], s[o + 1..];
      assert r == a + [s[o]] + b + c;
      assert |a + [s[o]] + b| == o + 1;
    }
  }

  /** Moving an element never gains or loses one. */
  lemma MovedIsPermutation<T>(s: seq<T>, o: nat, t: nat)
    requires o < |s| && t < |s|
    ensures multiset(Moved(s, o, t)) == multiset(s)
  {
    if o < t {
      var a, b, c := s[..o], s[o + 1..t + 1], s[t + 1..];
      assert s == a + [s[o]] + b + c;
      assert Moved(s, o, t) == a + b + [s[o]] + c;
      assert multiset(s) == multiset(a) + multiset{s[o]} + multiset(b) + multiset(c);
      assert multiset(a + b + [s[o]] + c) == multiset(a) + multiset(b) + multiset{s[o]} + multiset(c);
    } else if t < o {
      var a, b, c := s[..t], s[t..o], s[o + 1..];
      assert s == a + b + [s[o]] + c;
      assert Moved(s, o, t) == a + [s[o]] + b + c;
      assert multiset(s) == multiset(a) + multiset(b) + multiset{s[o]} + multiset(c);
      assert multiset(a + [s[o]] + b + c) == multiset(a) + multiset{s[o]} + multiset(b) + multiset(c);
    }
  }

  /** A List<T>: `items` is the internal array (its length is the capacity) and
      `size` the count. */
  class FastList<T(0, ==)> {
    var items: array<T>
    var size: nat

    ghost predicate Valid()
      reads this
    {
      size <= items.Length
    }

    function Elements(): seq<T>
      reads this, items
      requires Valid()
    {
      items[..size]
    }

    /** `new List<T>(capacity)`. */
    constructor (capacity: nat)
      ensures Valid() && fresh(items)
      ensures items.Length == capacity && Elements() == []
    {
      items := new T[capacity];
      size := 0;
    }

    /** `new List<T>(collection)`: a list holding a copy of `s`. */
    constructor FromSeq(s: seq<T>)
      ensures Valid() && fresh(items)
      ensures Elements() == s
    {
      var a := new T[|s|];
      var i := 0;
      while i < |s|
        invariant 0 <= i <= |s|
        invariant a[..i] == s[..i]
      {
        a[i] := s[i];
        i := i + 1;
      }
      items := a;
      size := |s|;
    }

    /** RemoveAtFast: overwrite slot `index` with the last element, then drop the last slot. */
    method RemoveAtFast(index: nat)
      requires Valid() && index < size
      modifies this, items
      ensures Valid() && items == old(items)
      ensures Elements() == SwapRemoved(old(Elements()), index)
    {
      var last := size - 1;
      items[index] := items[last];
      size := last;
    }

    /** RemoveFast: RemoveAtFast at the first index of `value`. An absent value gives
        index -1, on which the list indexer throws, so presence is required. */
    method RemoveFast(value: T)
      requires Valid() && value in Elements()
      modifies this, items
      ensures Valid() && items == old(items)
      ensures Elements() == SwapRemoved(old(Elements()), IndexOf(old(Elements()), value))
    {
      var index := IndexOf(items[..size], value);
      var last := size - 1;
      items[index] := items[last];
      size := last;
    }

    /** The `Capacity` setter: a fresh internal array of exactly `capacity` slots
        holding the current elements. */
    method SetCapacity(capacity: nat)
      requires Valid() && size <= capacity
      modifies this
      ensures Valid() && fresh(items) && items.Length == capacity
      ensures size == old(size) && Elements() == old(Elements())
    {
      var a := new T[capacity];
      var i := 0;
      while i < size
        invariant 0 <= i <= size
        invariant size == old(size) && items == old(items) && size <= items.Length
        invariant a[..i] == items[..i]
      {
        a[i] := items[i];
        i := i + 1;
      }
      items := a;
    }

    /** AddArrayFast(src, itemCount): grow the capacity to `Count + itemCount` if needed,
        copy `src[0..itemCount)` behind the current elements, then set the size.
        `Array.Copy` throws unless `itemCount <= src.Length`. `src` may be the list's
        own internal array: `Array.Copy` copies overlapping ranges as if through a
        temporary array, and after a growth `src` is the old array, so either way the
        elements copied are those `src` held before the call. */
    method AddArrayFastCount(src: array<T>, itemCount: nat)
      requires Valid() && itemCount <= src.Length
      modifies this, items
      ensures Valid()
      ensures Elements() == old(Elements()) + old(src[..itemCount])
    {
      var copied := src[..itemCount];
      var newCapacity := size + itemCount;
      if items.Length < newCapacity {
        SetCapacity(newCapacity);
      }
      var i := 0;
      while i < itemCount
        invariant 0 <= i <= itemCount
        invariant Valid() && size + itemCount <= items.Length
        invariant size == old(size) && (items == old(items) || fresh(items))
        invariant items[..size] == old(Elements())
        invariant items[size..size + i] == copied[..i]
      {
        items[size + i] := copied[i];
        i := i + 1;
      }
      size := newCapacity;
      assert items[..size] == items[..old(size)] + items[old(size)..size];
    }

    /** AddArrayFast(src): append the whole array. */
    method AddArrayFast(src: array<T>)
      requires Valid()
      modifies this, items
      ensures Valid()
      ensures Elements() == old(Elements()) + old(src[..])
    {
      AddArrayFastCount(src, src.Length);
    }

    /** AddListFast(other): append the elements of `other`, in order; appending a list
        to itself doubles it. */
    method AddListFast(other: FastList<T>)
      requires Valid() && other.Valid()
      modifies this, items
      ensures Valid()
      ensures Elements() == old(Elements()) + old(other.Elements())
    {
      AddArrayFastCount(other.items, other.size);
    }

    /** MoveFast(o, t): remember `items[o]`, shift each slot from `o` toward `t` by one,
        then store the remembered element at `t`. */
    method MoveFast(originalIndex: nat, targetIndex: nat)
      requires Valid() && originalIndex < size && targetIndex < size
      modifies items
      ensures Elements() == Moved(old(Elements()), originalIndex, targetIndex)
    {
      ghost var before := items[..size];
      var step := if targetIndex > originalIndex then 1 else if targetIndex < originalIndex then -1 else 0;
      if step == 0 {
        return;
      }
      var movedObject := items[originalIndex];
      var index := originalIndex;
      while index != targetIndex
        invariant step == 1 ==> originalIndex <= index <= targetIndex
        invariant step == -1 ==> targetIndex <= index <= originalIndex
        invariant step == 1 ==> forall k :: originalIndex <= k < index ==> items[k] == before[k + 1]
        invariant step == -1 ==> forall k :: index < k <= originalIndex ==> items[k] == before[k - 1]
        invariant forall k :: 0 <= k < size && (k < originalIndex || k >= index) && step == 1 ==> items[k] == before[k]
        invariant forall k :: 0 <= k < size && (k > originalIndex || k <= index) && step == -1 ==> items[k] == before[k]
        decreases if step == 1 then targetIndex - index else index - targetIndex
      {
        items[index] := items[index + step];
        index := index + step;
      }
      items[targetIndex] := movedObject;
      MovedAt(before, originalIndex, targetIndex);
      assert items[..size] == Moved(before, originalIndex, targetIndex);
    }
  }
}
