/** The fixed-size ring buffer behind every spool: a full buffer overwrites its oldest item. */
module DropOldestQueue {
  import opened Bytes

  /** What pushing onto a queue of `capacity` items leaves, oldest first. */
  function PushBounded<T>(items: seq<T>, item: T, capacity: nat): (r: seq<T>)
    requires |items| <= capacity
    ensures |r| <= capacity
  {
    if capacity == 0 then items
    else if |items| == capacity then items[1..] + [item]
    else items + [item]
  }

  /** What a push hands back. */
  function PushDropped<T>(items: seq<T>, item: T, capacity: nat): Option<T>
    requires |items| <= capacity
  {
    if capacity == 0 then Some(item)
    else if |items| == capacity then Some(items[0])
    else None
  }

  class Queue<T> {
    const buf: array<Option<T>>
    var head: nat
    var len: nat

    ghost predicate Valid()
      reads this, buf
    {
      && len <= buf.Length
      && (buf.Length == 0 ==> head == 0)
      && (buf.Length > 0 ==> head < buf.Length)
      && forall i :: 0 <= i < len ==> buf[Slot(i)].Some?
    }

    /** The buffer index of the `i`th oldest item. */
    ghost function Slot(i: nat): (s: nat)
      requires i < len <= buf.Length && head < buf.Length
      reads this
      ensures s < buf.Length
    {
      if head + i < buf.Length then head + i else head + i - buf.Length
    }

    /** A buffer position taken modulo the capacity. */
    function Next(x: nat): (r: nat)
      requires x < 2 * buf.Length
      ensures r == if x < buf.Length then x else x - buf.Length
    {
      x % buf.Length
    }

    /** The queued items, oldest first. */
    ghost function Contents(): (items: seq<T>)
      requires Valid()
      reads this, buf
      ensures |items| == len
      ensures forall i :: 0 <= i < len ==> buf[Slot(i)] == Some(items[i])
    {
      seq(len, i requires 0 <= i < len && Valid() reads this, buf => buf[Slot(i)].value)
    }

    constructor (capacity: nat)
      ensures Valid() && Contents() == [] && fresh(buf) && buf.Length == capacity
    {
      buf := new Option<T>[capacity](_ => None);
      head := 0;
      len := 0;
    }

    method Push(item: T) returns (dropped: Option<T>)
      requires Valid()
      modifies this, buf
      ensures Valid()
      ensures dropped == PushDropped(old(Contents()), item, buf.Length)
      ensures Contents() == PushBounded(old(Contents()), item, buf.Length)
    {
      ghost var before := Contents();
      if buf.Length == 0 {
        return Some(item);
      }
      if len == buf.Length {
        assert forall i :: 1 <= i < len ==> Slot(i) != head && buf[Slot(i)] == Some(before[i]);
        dropped := buf[head];
        label full:
        buf[head] := Some(item);
        head := Next(head + 1);
        forall i | 0 <= i < len
          ensures buf[Slot(i)] == Some((before[1..] + [item])[i])
        {
          assert i + 1 < len ==> Slot(i) == old@full(Slot(i + 1));
        }
        assert Contents() == before[1..] + [item];
      } else {
        var index := Next(head + len);
        assert forall i :: 0 <= i < len ==> Slot(i) != index && buf[Slot(i)] == Some(before[i]);
        buf[index] := Some(item);
        len := len + 1;
        dropped := None;
        assert forall i :: 0 <= i < len ==> buf[Slot(i)] == Some((before + [item])[i]);
        assert Contents() == before + [item];
      }
    }

    method Pop() returns (item: Option<T>)
      requires Valid()
      modifies this, buf
      ensures Valid()
      ensures item == if old(len) == 0 then None else Some(old(Contents())[0])
      ensures Contents() == if old(len) == 0 then [] else old(Contents())[1..]
    {
      ghost var before := Contents();
      if len == 0 || buf.Length == 0 {
        return None;
      }
      item := buf[head];
      assert forall i :: 1 <= i < len ==> Slot(i) != head && buf[Slot(i)] == Some(before[i]);
      label popping:
      buf[head] := None;
      head := Next(head + 1);
      len := len - 1;
      forall i | 0 <= i < len
        ensures buf[Slot(i)] == Some(before[1..][i])
      {
        assert Slot(i) == old@popping(Slot(i + 1));
      }
      assert Contents() == before[1..];
    }

    method Front() returns (item: Option<T>)
      requires Valid()
      ensures item == if len == 0 then None else Some(Contents()[0])
    {
      if len == 0 || buf.Length == 0 {
        return None;
      }
      item := buf[head];
    }

    method Get(index: nat) returns (item: Option<T>)
      requires Valid()
      ensures item == if index < len then Some(Contents()[index]) else None
    {
      if index >= len || buf.Length == 0 {
        return None;
      }
      item := buf[Next(head + index)];
    }
  }

  // A queue over a whole run of pushes.

  function PushAll<T>(items: seq<T>, more: seq<T>, capacity: nat): (r: seq<T>)
    requires |items| <= capacity
    ensures |r| <= capacity
    decreases |more|
  {
    if more == [] then items else PushAll(PushBounded(items, more[0], capacity), more[1..], capacity)
  }

  function Newest<T>(all: seq<T>, capacity: nat): seq<T> {
    if |all| <= capacity then all else all[|all| - capacity..]
  }

  lemma PushKeepsNewest<T>(items: seq<T>, x: T, more: seq<T>, capacity: nat)
    requires |items| <= capacity
    ensures |PushBounded(items, x, capacity)| <= capacity
    ensures Newest(PushBounded(items, x, capacity) + more, capacity) == Newest(items + ([x] + more), capacity)
  {
    var all, rest := items + ([x] + more), PushBounded(items, x, capacity) + more;
    if capacity == 0 {
      assert Newest(rest, capacity) == [] == Newest(all, capacity);
    } else if |items| == capacity {
      assert rest == all[1..];
      if |rest| > capacity {
        assert all[1..][|rest| - capacity..] == all[|all| - capacity..];
      }
    } else {
      assert rest == all;
    }
  }

  /** Any run of pushes keeps exactly the newest `capacity` of everything ever queued. */
  lemma {:induction false} PushAllKeepsNewest<T>(items: seq<T>, more: seq<T>, capacity: nat)
    requires |items| <= capacity
    ensures PushAll(items, more, capacity) == Newest(items + more, capacity)
    decreases |more|
  {
    hide Newest, PushBounded;
    if more == [] {
      assert items + more == items;
      NewestOfFew(items, capacity);
    } else {
      assert more == [more[0]] + more[1..];
      PushKeepsNewest(items, more[0], more[1..], capacity);
      PushAllKeepsNewest(PushBounded(items, more[0], capacity), more[1..], capacity);
    }
  }

  lemma NewestOfFew<T>(items: seq<T>, capacity: nat)
    requires |items| <= capacity
    ensures Newest(items, capacity) == items
  {
  }
}
