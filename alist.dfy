/** AList, the growable list of struct/alist.c. `arr` is the whole buffer of
    `tableSz` slots, `len` the number of elements in use, `objSz` the element
    width the source does its pointer arithmetic with. A pointer the source
    returns into the buffer is modelled as the index of its slot. */
module ArrayList {
  import opened Wrappers

  /** How many slots a full list grows by. */
  const DEFAULT_ARRAY_SZ: nat := 6

  class AList<T(0)> {
    var arr: seq<T>
    var len: nat
    var tableSz: nat
    var objSz: nat

    /** The buffer has `tableSz` slots and the elements fit in it. */
    ghost predicate Valid()
      reads this
    {
      |arr| == tableSz && len <= tableSz
    }

    /** The elements in use, arr[0, len). */
    function Contents(): (s: seq<T>)
      reads this
      requires Valid()
      ensures |s| == len
    {
      arr[..len]
    }

    /** __alist_init: adopts a buffer of `tableSz` slots and holds no elements. */
    constructor Init(arr: seq<T>, objSz: nat, tableSz: nat)
      requires |arr| == tableSz
      ensures Valid() && Contents() == []
      ensures this.arr == arr && this.tableSz == tableSz && this.objSz == objSz
    {
      this.arr := arr;
      len := 0;
      this.objSz := objSz;
      this.tableSz := tableSz;
    }

    /** alist_append: stores `v` at index `len` and returns that index. A full buffer
        first grows by exactly DEFAULT_ARRAY_SZ slots, and only a full one does. */
    method Append(v: T) returns (index: nat)
      requires Valid()
      modifies this
      ensures Valid() && objSz == old(objSz)
      ensures index == old(len) && len == old(len) + 1
      ensures Contents() == old(Contents()) + [v]
      ensures tableSz == if old(len) == old(tableSz) then old(tableSz) + DEFAULT_ARRAY_SZ else old(tableSz)
      ensures old(len) < old(tableSz) ==> arr[len..] == old(arr)[len..]
    {
      if len == tableSz {
        tableSz := tableSz + DEFAULT_ARRAY_SZ;
        // realloc: the new slots hold indeterminate values
        var unset: T := *;
        arr := arr + seq(DEFAULT_ARRAY_SZ, _ => unset);
      }
      arr := arr[len := v];
      index := len;
      len := len + 1;
    }

    /** alist_add: reserves the slot at index `len` and returns it without writing
        it; the growth rule is the one of alist_append. Without growth the slot keeps
        what the buffer held; after growth its content is indeterminate. */
    method Add() returns (slot: nat)
      requires Valid()
      modifies this
      ensures Valid() && objSz == old(objSz)
      ensures slot == old(len) && len == old(len) + 1
      ensures Contents()[..slot] == old(Contents())
      ensures tableSz == if old(len) == old(tableSz) then old(tableSz) + DEFAULT_ARRAY_SZ else old(tableSz)
      ensures old(len) < old(tableSz) ==> arr == old(arr)
    {
      if len == tableSz {
        tableSz := tableSz + DEFAULT_ARRAY_SZ;
        var unset: T := *;
        arr := arr + seq(DEFAULT_ARRAY_SZ, _ => unset);
      }
      slot := len;
      len := len + 1;
    }

    /** A store through a slot returned by alist_add or alist_get. */
    method Put(slot: nat, v: T)
      requires Valid() && slot < len
      modifies this
      ensures Valid() && len == old(len) && tableSz == old(tableSz) && objSz == old(objSz)
      ensures Contents() == old(Contents())[slot := v]
    {
      arr := arr[slot := v];
    }

    /** alist_remove_last: nothing happens on an empty list; otherwise the last
        element is dropped. The buffer is untouched. */
    method RemoveLast()
      requires Valid()
      modifies this
      ensures Valid() && arr == old(arr) && tableSz == old(tableSz) && objSz == old(objSz)
      ensures old(len) == 0 ==> len == 0
      ensures old(len) > 0 ==> len == old(len) - 1 && Contents() == old(Contents())[..old(len) - 1]
    {
      if len <= 0 {
        return;
      }
      len := len - 1;
    }

    /** alist_get: the element at index `i`; an index at or past `len` trips the
        source's assertion. */
    function Get(i: nat): (v: T)
      reads this
      requires Valid() && i < len
      ensures v == Contents()[i]
    {
      arr[i]
    }

    /** alist_len: the number of elements, never more than the buffer holds. */
    function Len(): (n: nat)
      reads this
      requires Valid()
      ensures n == |Contents()| && n <= tableSz
    {
      len
    }

    /** alist_iterate: calls the action on the slots 0, 1, ..., len - 1, in that
        order; the result lists the slots the action receives. */
    method Iterate() returns (visited: seq<nat>)
      requires Valid()
      ensures |visited| == len
      ensures forall k :: 0 <= k < |visited| ==> visited[k] == k
    {
      visited := [];
      var i := 0;
      while i < Len()
        invariant 0 <= i <= len
        invariant |visited| == i
        invariant forall k :: 0 <= k < i ==> visited[k] == k
      {
        visited := visited + [i];
        i := i + 1;
      }
    }
  }

  /** AL_iter: a cursor over a list, moving up or (for a reverse cursor) down. */
  class ALIter<T(0)> {
    const list: AList<T>
    var i: int
    const isReverse: bool

    /** alist_iter: a forward cursor at index 0. */
    constructor Forward(list: AList<T>)
      ensures this.list == list && i == 0 && !isReverse
    {
      this.list := list;
      i := 0;
      isReverse := false;
    }

    /** alist_riter: a reverse cursor at index len - 1, which is -1 for an empty list
        (the source's size_t len - 1 converted to int). */
    constructor Reverse(list: AList<T>)
      ensures this.list == list && i == list.len - 1 && isReverse
    {
      this.list := list;
      i := list.len - 1;
      isReverse := true;
    }

    /** al_value: alist_get at the cursor. */
    function Value(): (v: T)
      reads this, list
      requires list.Valid() && 0 <= i < list.len
      ensures v == list.Contents()[i]
    {
      list.Get(i)
    }

    /** al_inc: one step up, or one step down for a reverse cursor. */
    method Inc()
      modifies this
      ensures i == if isReverse then old(i) - 1 else old(i) + 1
    {
      if isReverse {
        i := i - 1;
      } else {
        i := i + 1;
      }
    }

    /** al_has: a reverse cursor checks only the lower end and a forward one only
        the upper end; within the range the cursor moves in, it holds exactly when
        al_value is defined at the cursor. */
    function Has(): (b: bool)
      reads this, list
      ensures list.Valid() && (if isReverse then i < list.len else 0 <= i) ==> (b <==> 0 <= i < list.len)
    {
      if isReverse then i >= 0 else i < list.len
    }
  }

  /** The loop `for (it = alist_iter(a); al_has(&it); al_inc(&it)) al_value(&it)`
      visits every element once, in ascending index order. */
  method VisitForward<T(0)>(a: AList<T>) returns (visited: seq<T>)
    requires a.Valid()
    ensures visited == a.Contents()
  {
    var it := new ALIter.Forward(a);
    visited := [];
    while it.Has()
      invariant it.list == a && !it.isReverse && 0 <= it.i <= a.len
      invariant visited == a.Contents()[..it.i]
      decreases a.len - it.i
    {
      visited := visited + [it.Value()];
      it.Inc();
    }
  }

  /** The same loop from alist_riter visits the same elements in descending index
      order, and nothing at all on an empty list. */
  method VisitReverse<T(0)>(a: AList<T>) returns (visited: seq<T>)
    requires a.Valid()
    ensures |visited| == a.len
    ensures forall k :: 0 <= k < |visited| ==> visited[k] == a.Contents()[a.len - 1 - k]
  {
    var it := new ALIter.Reverse(a);
    visited := [];
    while it.Has()
      invariant it.list == a && it.isReverse && -1 <= it.i < a.len
      invariant |visited| == a.len - 1 - it.i
      invariant forall k :: 0 <= k < |visited| ==> visited[k] == a.Contents()[a.len - 1 - k]
      decreases it.i + 1
    {
      visited := visited + [it.Value()];
      it.Inc();
    }
  }
}
