/** The flat, reallocating dynamic array that IMPL_ARRAYLIKE generates for one
    element type. The buffer is `table` (its length is the allocated capacity),
    `size` counts the logically present elements, and a `_ref` function's
    pointer into the buffer is modelled as the index of the slot it points at. */
module ArrayLike {
  import opened Wrappers

  /** Every capacity that ensure_capacity computes is a multiple of this. */
  const DEFAULT_TABLE_SIZE: nat := 8

  /** The capacity ensure_capacity asks for to hold `n` elements: the least
      multiple of DEFAULT_TABLE_SIZE that is at least `n`. */
  function RoundUp(n: nat): (r: nat)
    ensures r % DEFAULT_TABLE_SIZE == 0
    ensures n <= r < n + DEFAULT_TABLE_SIZE
  {
    ((n + 8 - 1) / 8) * 8
  }

  /** No smaller multiple of DEFAULT_TABLE_SIZE holds `n` elements. */
  lemma RoundUpIsLeast(n: nat, m: nat)
    requires m % DEFAULT_TABLE_SIZE == 0 && n <= m
    ensures RoundUp(n) <= m
  {
  }

  /** The buffer that ensure_capacity leaves behind: the same buffer when the
      rounded-up request already fits, otherwise a buffer of exactly the rounded-up
      length that keeps slots [0, size) and zeroes every slot from `size` on. */
  function Reserve<T>(table: seq<T>, size: nat, need: nat, zero: T): (r: seq<T>)
    requires size <= |table|
    ensures |r| >= need && |r| >= |table|
    ensures r[..size] == table[..size]
    ensures RoundUp(need) <= |table| ==> r == table
    ensures RoundUp(need) > |table| ==>
              |r| == RoundUp(need) && forall k :: size <= k < |r| ==> r[k] == zero
  {
    if RoundUp(need) <= |table| then table
    else table[..size] + seq(RoundUp(need) - size, _ => zero)
  }

  class DynArray<T> {
    var capacity: nat
    var size: nat
    var table: seq<T>
    /** What calloc and memset leave in a slot: the element whose bytes are all zero. */
    const zero: T

    /** The state every successful init establishes and every operation keeps. */
    ghost predicate Valid()
      reads this
    {
      0 < capacity && |table| == capacity && size <= capacity
    }

    /** The logically present elements, table[0, size). */
    function Contents(): (s: seq<T>)
      reads this
      requires Valid()
      ensures |s| == size
    {
      table[..size]
    }

    /** A zero-initialised struct, before any init: no buffer, no capacity. */
    constructor (zero: T)
      ensures this.zero == zero && capacity == 0 && size == 0 && table == []
    {
      this.zero := zero;
      capacity, size, table := 0, 0, [];
    }

    /** init_capacity: refuses a zero capacity; otherwise a zeroed buffer of exactly
        the requested capacity and no elements. */
    method InitCapacity(capacity: nat) returns (ok: bool)
      modifies this
      ensures ok <==> capacity > 0
      ensures ok ==> Valid() && this.capacity == capacity && Contents() == []
      ensures ok ==> table == seq(capacity, _ => zero)
      ensures !ok ==> unchanged(this)
    {
      if capacity == 0 {
        return false;
      }
      this.capacity := capacity;
      table := seq(capacity, _ => zero);
      size := 0;
      return true;
    }

    /** init: init_capacity with DEFAULT_TABLE_SIZE, which always succeeds. */
    method Init() returns (ok: bool)
      modifies this
      ensures ok && Valid() && capacity == DEFAULT_TABLE_SIZE && Contents() == []
    {
      ok := InitCapacity(DEFAULT_TABLE_SIZE);
    }

    /** ensure_capacity: grows the buffer to RoundUp(need) only when that exceeds the
        current capacity; the elements are kept and the capacity never shrinks. */
    method EnsureCapacity(need: nat)
      requires Valid()
      modifies this
      ensures Valid() && size == old(size)
      ensures table == Reserve(old(table), old(size), need, zero)
      ensures capacity == if RoundUp(need) <= old(capacity) then old(capacity) else RoundUp(need)
      ensures capacity >= need && capacity >= old(capacity)
      ensures Contents() == old(Contents())
    {
      var newCapacity := RoundUp(need);
      if newCapacity <= capacity {
        return;
      }
      table := table[..size] + seq(newCapacity - size, _ => zero);
      capacity := newCapacity;
    }

    /** shift_left: moves the elements in [start, size) down by `amount` slots;
        `size` is left for the caller to adjust. */
    method ShiftLeft(start: nat, amount: nat)
      requires Valid()
      requires 0 < amount <= start <= size
      modifies this
      ensures Valid() && size == old(size) && capacity == old(capacity)
      ensures table[..start - amount] == old(table[..start - amount])
      ensures table[start - amount..size - amount] == old(table[start..size])
      ensures table[size - amount..] == old(table[size - amount..])
    {
      table := table[..start - amount] + table[start..size] + table[size - amount..];
    }

    /** shift_right: makes room for `size + amount` elements, moves [start, size) up
        by `amount` slots and zeroes the `amount` slots opened at `start`. */
    method ShiftRight(start: nat, amount: nat)
      requires Valid()
      requires 0 < amount && start <= size
      modifies this
      ensures Valid() && size == old(size)
      ensures capacity == |Reserve(old(table), old(size), old(size) + amount, zero)|
      ensures capacity >= size + amount
      ensures table[..start] == old(table[..start])
      ensures forall k :: start <= k < start + amount ==> table[k] == zero
      ensures table[start + amount..size + amount] == old(table[start..size])
      ensures table[size + amount..]
           == Reserve(old(table), old(size), old(size) + amount, zero)[size + amount..]
    {
      EnsureCapacity(size + amount);
      table := table[..start] + seq(amount, _ => zero) + table[start..size] + table[size + amount..];
    }

    /** clear: drops every element and keeps the buffer. */
    method Clear()
      requires Valid()
      modifies this
      ensures Valid() && Contents() == []
      ensures capacity == old(capacity) && table == old(table)
    {
      size := 0;
    }

    /** push_front: the new element comes first, the old ones follow. */
    method PushFront(elt: T)
      requires Valid()
      modifies this
      ensures Valid() && Contents() == [elt] + old(Contents())
      ensures capacity == if old(size) > 0
                          then |Reserve(old(table), old(size), old(size) + 1, zero)|
                          else old(capacity)
    {
      if size > 0 {
        ShiftRight(0, 1);
      }
      table := table[0 := elt];
      size := size + 1;
    }

    /** push_front_ref: opens slot 0 and returns it; the slot holds zero after a
        shift and whatever the buffer held there when the array was empty. */
    method PushFrontRef() returns (slot: nat)
      requires Valid()
      modifies this
      ensures Valid() && slot == 0
      ensures Contents() == [if old(size) > 0 then zero else old(table[0])] + old(Contents())
      ensures capacity == if old(size) > 0
                          then |Reserve(old(table), old(size), old(size) + 1, zero)|
                          else old(capacity)
    {
      if size > 0 {
        ShiftRight(0, 1);
      }
      size := size + 1;
      return 0;
    }

    /** pop_front_unchecked: the caller guarantees the array is not empty. */
    method PopFrontUnchecked() returns (v: T)
      requires Valid() && size > 0
      modifies this
      ensures Valid() && capacity == old(capacity)
      ensures v == old(Contents()[0]) && Contents() == old(Contents()[1..])
    {
      v := table[0];
      if size > 1 {
        ShiftLeft(1, 1);
      }
      size := size - 1;
    }

    /** pop_front: fails without any change on an empty array; otherwise yields the
        first element and keeps the rest in order. */
    method PopFront() returns (r: Option<T>)
      requires Valid()
      modifies this
      ensures Valid() && capacity == old(capacity)
      ensures r.Some? <==> old(size) > 0
      ensures r == None ==> unchanged(this)
      ensures r.Some? ==> r.value == old(Contents()[0]) && Contents() == old(Contents()[1..])
    {
      if size == 0 {
        return None;
      }
      var v := table[0];
      if size > 1 {
        ShiftLeft(1, 1);
      }
      size := size - 1;
      return Some(v);
    }

    /** push_back: the new element comes last. */
    method PushBack(elt: T)
      requires Valid()
      modifies this
      ensures Valid() && Contents() == old(Contents()) + [elt]
      ensures capacity == |Reserve(old(table), old(size), old(size) + 1, zero)|
    {
      EnsureCapacity(size + 1);
      table := table[size := elt];
      size := size + 1;
    }

    /** push_back_ref: opens the slot after the last element and returns it; the slot
        holds what ensure_capacity left there (zero after a reallocation). */
    method PushBackRef() returns (slot: nat)
      requires Valid()
      modifies this
      ensures Valid() && slot == old(size)
      ensures Contents()
           == old(Contents()) + [Reserve(old(table), old(size), old(size) + 1, zero)[old(size)]]
      ensures capacity == |Reserve(old(table), old(size), old(size) + 1, zero)|
    {
      EnsureCapacity(size + 1);
      slot := size;
      size := size + 1;
    }

    /** pop_back_unchecked: the caller guarantees the array is not empty. */
    method PopBackUnchecked() returns (v: T)
      requires Valid() && size > 0
      modifies this
      ensures Valid() && capacity == old(capacity) && table == old(table)
      ensures v == old(Contents()[size - 1]) && Contents() == old(Contents()[..size - 1])
    {
      v := table[size - 1];
      size := size - 1;
    }

    /** pop_back: fails without any change on an empty array; otherwise yields the
        last element and keeps the others. */
    method PopBack() returns (r: Option<T>)
      requires Valid()
      modifies this
      ensures Valid() && capacity == old(capacity) && table == old(table)
      ensures r.Some? <==> old(size) > 0
      ensures r == None ==> size == old(size)
      ensures r.Some? ==> r.value == old(Contents()[size - 1]) && Contents() == old(Contents()[..size - 1])
    {
      if size == 0 {
        return None;
      }
      var v := table[size - 1];
      size := size - 1;
      return Some(v);
    }

    /** lshrink: drops the first `amount` elements; fails without change when there
        are fewer. A zero amount trips the assertion in shift_left. */
    method LShrink(amount: nat) returns (ok: bool)
      requires Valid() && amount > 0
      modifies this
      ensures Valid() && capacity == old(capacity)
      ensures ok <==> amount <= old(size)
      ensures !ok ==> unchanged(this)
      ensures ok ==> Contents() == old(Contents()[amount..])
    {
      if size < amount {
        return false;
      }
      ShiftLeft(amount, amount);
      size := size - amount;
      return true;
    }

    /** rshrink: drops the last `amount` elements; fails without change when there
        are fewer. The buffer is untouched. */
    method RShrink(amount: nat) returns (ok: bool)
      requires Valid()
      modifies this
      ensures Valid() && capacity == old(capacity) && table == old(table)
      ensures ok <==> amount <= old(size)
      ensures !ok ==> size == old(size)
      ensures ok ==> Contents() == old(Contents()[..size - amount])
    {
      if size < amount {
        return false;
      }
      size := size - amount;
      return true;
    }

    /** set: fails for a negative index; otherwise writes slot `index`, extending the
        array to `index + 1` elements when the index is past the end. Elements below
        the old size other than `index` keep their values; the slots an extension
        exposes between the old size and `index` hold what ensure_capacity left. */
    method Set(index: int, elt: T) returns (ok: bool)
      requires Valid()
      modifies this
      ensures Valid()
      ensures ok <==> index >= 0
      ensures !ok ==> unchanged(this)
      ensures ok ==> size == Max(old(size), index + 1) && Contents()[index] == elt
      ensures ok ==> forall j :: 0 <= j < old(size) && j != index ==> Contents()[j] == old(Contents()[j])
      ensures ok && index < old(size) ==> table == old(table)[index := elt]
      ensures ok && index >= old(size) ==>
                table == Reserve(old(table), old(size), index + 1, zero)[index := elt]
    {
      if index < 0 {
        return false;
      }
      if index >= size {
        EnsureCapacity(index + 1);
        size := index + 1;
      }
      table := table[index := elt];
      return true;
    }

    /** set_ref: the same bounds rule and extension as set, returning the slot
        instead of writing to it. */
    method SetRef(index: int) returns (r: Option<nat>)
      requires Valid()
      modifies this
      ensures Valid()
      ensures r.Some? <==> index >= 0
      ensures r == None ==> unchanged(this)
      ensures r.Some? ==> r.value == index && size == Max(old(size), index + 1)
      ensures r.Some? && index < old(size) ==> table == old(table) && size == old(size)
      ensures r.Some? && index >= old(size) ==> table == Reserve(old(table), old(size), index + 1, zero)
    {
      if index < 0 {
        return None;
      }
      if index >= size {
        EnsureCapacity(index + 1);
        size := index + 1;
      }
      return Some(index);
    }

    /** set_ref_unchecked: set_ref without the sign check; the caller passes a
        non-negative index. */
    method SetRefUnchecked(index: nat) returns (slot: nat)
      requires Valid()
      modifies this
      ensures Valid() && slot == index && size == Max(old(size), index + 1)
      ensures index < old(size) ==> table == old(table)
      ensures index >= old(size) ==> table == Reserve(old(table), old(size), index + 1, zero)
    {
      if index >= size {
        EnsureCapacity(index + 1);
        size := index + 1;
      }
      return index;
    }

    /** `*ptr = v` through a slot returned by one of the `_ref` operations. */
    method Store(slot: nat, v: T)
      requires Valid() && slot < size
      modifies this
      ensures Valid() && capacity == old(capacity) && size == old(size)
      ensures Contents() == old(Contents())[slot := v]
    {
      table := table[slot := v];
    }

    /** get: succeeds exactly for 0 <= index < size, yielding that element. */
    function Get(index: int): (r: Option<T>)
      reads this
      requires Valid()
      ensures r.Some? <==> 0 <= index < size
      ensures r.Some? ==> r.value == Contents()[index]
    {
      if index < 0 || index >= size then None else Some(table[index])
    }

    /** get_unchecked: the caller guarantees the index is in range. */
    function GetUnchecked(index: int): (v: T)
      reads this
      requires Valid() && 0 <= index < size
      ensures Get(index) == Some(v)
    {
      table[index]
    }

    /** get_ref: the slot of element `index`, for 0 <= index < size only. */
    function GetRef(index: int): (r: Option<nat>)
      reads this
      requires Valid()
      ensures r.Some? <==> 0 <= index < size
      ensures r.Some? ==> r.value == index && Get(index) == Some(Contents()[r.value])
    {
      if index < 0 || index >= size then None else Some(index)
    }

    /** mutable_ref: get_ref returning a writable slot; the constness of the
        pointer is not part of the model. */
    function MutableRef(index: int): (r: Option<nat>)
      reads this
      requires Valid()
      ensures r == GetRef(index)
      ensures r.Some? ==> r.value < size
    {
      if index < 0 || index >= size then None else Some(index)
    }

    /** mutable_ref_unchecked: the slot of an in-range index. */
    function MutableRefUnchecked(index: int): (slot: nat)
      reads this
      requires Valid() && 0 <= index < size
      ensures GetRef(index) == Some(slot)
    {
      index
    }

    /** get_ref_unchecked: delegates to mutable_ref_unchecked. */
    function GetRefUnchecked(index: int): (slot: nat)
      reads this
      requires Valid() && 0 <= index < size
      ensures slot == index && slot < size && Contents()[slot] == GetUnchecked(index)
    {
      MutableRefUnchecked(index)
    }

    /** last: get(size - 1). On an empty array the index is -1 (the source obtains
        it by converting size_t(0) - 1 to int32_t), so the lookup fails. */
    function Last(): (r: Option<T>)
      reads this
      requires Valid()
      ensures r.Some? <==> size > 0
      ensures r.Some? ==> r.value == Contents()[size - 1] && Get(size - 1) == r
    {
      Get(size as int - 1)
    }

    /** last_unchecked: the caller guarantees the array is not empty. */
    function LastUnchecked(): (v: T)
      reads this
      requires Valid() && size > 0
      ensures Last() == Some(v)
    {
      GetUnchecked(size - 1)
    }

    /** last_ref: get_ref(size - 1). */
    function LastRef(): (r: Option<nat>)
      reads this
      requires Valid()
      ensures r.Some? <==> size > 0
      ensures r.Some? ==> r.value == size - 1
    {
      GetRef(size as int - 1)
    }

    /** last_ref_unchecked: the caller guarantees the array is not empty. */
    function LastRefUnchecked(): (slot: nat)
      reads this
      requires Valid() && size > 0
      ensures LastRef() == Some(slot)
    {
      GetRefUnchecked(size - 1)
    }

    /** remove: fails without change outside [0, size); otherwise yields element
        `index` and closes the gap, keeping the order of the others. */
    method Remove(index: int) returns (r: Option<T>)
      requires Valid()
      modifies this
      ensures Valid() && capacity == old(capacity)
      ensures r.Some? <==> 0 <= index < old(size)
      ensures r == None ==> unchanged(this)
      ensures r.Some? ==> r.value == old(Contents()[index])
      ensures r.Some? ==> Contents() == old(Contents()[..index] + Contents()[index + 1..])
    {
      if index < 0 || index >= size {
        return None;
      }
      var v := table[index];
      if size > 1 {
        ShiftLeft(index + 1, 1);
      }
      size := size - 1;
      return Some(v);
    }

    /** remove_unchecked: the caller guarantees the index is in range. */
    method RemoveUnchecked(index: nat) returns (v: T)
      requires Valid() && index < size
      modifies this
      ensures Valid() && capacity == old(capacity)
      ensures v == old(Contents()[index])
      ensures Contents() == old(Contents()[..index] + Contents()[index + 1..])
    {
      v := table[index];
      if size > 1 {
        ShiftLeft(index + 1, 1);
      }
      size := size - 1;
    }

    /** size: the number of elements. */
    function Size(): (n: nat)
      reads this
      requires Valid()
      ensures n == |Contents()| && n <= capacity
    {
      size
    }

    /** is_empty: true exactly when there are no elements. */
    function IsEmpty(): (b: bool)
      reads this
      requires Valid()
      ensures b <==> Contents() == []
      ensures b <==> Last() == None
    {
      size == 0
    }

    /** copy: a new array with its own buffer of the same capacity holding the same
        elements. The slots past `size` of the copy are not copied by the source;
        the model fills them with zero and promises nothing about them. */
    method Copy() returns (c: DynArray<T>)
      requires Valid()
      ensures fresh(c) && c.Valid() && c.zero == zero
      ensures c.capacity == capacity && c.Contents() == Contents()
    {
      c := new DynArray(zero);
      c.capacity := capacity;
      c.size := size;
      c.table := table[..size] + seq(capacity - size, _ => zero);
    }

    /** append: the elements of `tail` follow those of this array. `tail` may be this
        same array, which then ends up holding its elements twice. */
    method Append(tail: DynArray<T>)
      requires Valid() && tail.Valid()
      modifies this
      ensures Valid()
      ensures Contents() == old(Contents()) + old(tail.Contents())
      ensures capacity == |Reserve(old(table), old(size), old(size) + old(tail.size), zero)|
    {
      // The source copies after ensure_capacity; that call keeps [0, size), so
      // reading the range first gives the same elements when `tail` is `this`.
      var src := tail.table[..tail.size];
      EnsureCapacity(size + |src|);
      table := table[..size] + src + table[size + |src|..];
      size := size + |src|;
    }

    /** append_range: fails without change unless 0 <= start <= end <= tail.size;
        otherwise tail's elements [start, end) follow those of this array. */
    method AppendRange(tail: DynArray<T>, start: int, end: int) returns (ok: bool)
      requires Valid() && tail.Valid()
      modifies this
      ensures Valid()
      ensures ok <==> 0 <= start <= end <= old(tail.size)
      ensures !ok ==> unchanged(this)
      ensures ok ==> Contents() == old(Contents()) + old(tail.Contents())[start..end]
      ensures ok ==> capacity == |Reserve(old(table), old(size), old(size) + end - start, zero)|
    {
      if start < 0 || start > end || end > tail.size {
        return false;
      }
      var src := tail.table[start..end];
      EnsureCapacity(size + |src|);
      table := table[..size] + src + table[size + |src|..];
      size := size + |src|;
      return true;
    }
  }

  /** The forward iterator: a position into one array. */
  class DynArrayIterator<T> {
    var index: nat
    var arr: DynArray<T>

    /** iterator: starts at the first element of `arr`. */
    constructor (arr: DynArray<T>)
      ensures this.arr == arr && index == 0
    {
      this.arr := arr;
      index := 0;
    }

    /** has_next: there is an element at the position, that is, get at the
        position succeeds. */
    function HasNext(): (b: bool)
      reads this, arr
      ensures arr.Valid() ==> (b <==> arr.Get(index).Some?)
    {
      index < arr.size
    }

    /** next: advances by one; advancing past the end is refused by an assertion. */
    method Next()
      requires HasNext()
      modifies this
      ensures arr == old(arr) && index == old(index) + 1
    {
      index := index + 1;
    }

    /** value: the element at the position (the source returns a const pointer to it). */
    function Value(): (v: T)
      reads this, arr
      requires arr.Valid() && HasNext()
      ensures v == arr.Contents()[index]
    {
      arr.GetUnchecked(index)
    }

    /** mutable_value: the slot at the position, to be written through. */
    function MutableValue(): (slot: nat)
      reads this, arr
      requires arr.Valid() && HasNext()
      ensures arr.GetRef(index) == Some(slot)
    {
      arr.MutableRefUnchecked(index)
    }
  }

  /** The iteration loop of the array's client code: has_next / value / next from
      a fresh iterator visits every element once, in index order. */
  method Traverse<T>(a: DynArray<T>) returns (visited: seq<T>)
    requires a.Valid()
    ensures visited == a.Contents()
  {
    var it := new DynArrayIterator(a);
    visited := [];
    while it.HasNext()
      invariant it.arr == a && it.index <= a.size
      invariant visited == a.Contents()[..it.index]
      decreases a.size - it.index
    {
      visited := visited + [it.Value()];
      it.Next();
    }
  }

  /** push_back followed by pop_back returns the pushed value and restores the
      elements. */
  method PushBackThenPopBack<T>(a: DynArray<T>, v: T) returns (r: Option<T>)
    requires a.Valid()
    modifies a
    ensures a.Valid() && r == Some(v) && a.Contents() == old(a.Contents())
  {
    a.PushBack(v);
    r := a.PopBack();
  }

  /** Two front pushes pop in the reverse order and restore the elements. */
  method PushFrontTwiceThenPopFront<T>(a: DynArray<T>, x: T, y: T) returns (first: Option<T>, second: Option<T>)
    requires a.Valid()
    modifies a
    ensures a.Valid() && first == Some(y) && second == Some(x)
    ensures a.Contents() == old(a.Contents())
  {
    a.PushFront(x);
    a.PushFront(y);
    first := a.PopFront();
    second := a.PopFront();
  }

  /** Index correspondence: after pushing `vs` at the back, element |old| + i is
      vs[i] and the index just past the last one is rejected. */
  method PushAllThenGet<T>(a: DynArray<T>, vs: seq<T>)
    requires a.Valid()
    modifies a
    ensures a.Valid() && a.Contents() == old(a.Contents()) + vs
    ensures forall i :: 0 <= i < |vs| ==> a.Get(old(a.size) + i) == Some(vs[i])
    ensures a.Get(old(a.size) + |vs|) == None
  {
    var i := 0;
    while i < |vs|
      invariant 0 <= i <= |vs|
      invariant a.Valid() && a.Contents() == old(a.Contents()) + vs[..i]
    {
      a.PushBack(vs[i]);
      i := i + 1;
    }
    assert vs[..i] == vs;
  }
}
