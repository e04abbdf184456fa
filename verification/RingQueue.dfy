/** The bounded FIFO of src/auto/queue.c: a ring buffer with one spare slot and a read
    cursor.  Pointers into the byte buffer become element indices. */
module RingQueue {

  datatype Status = Success | Failure | Fatal

  /** The items of a ring after slot p, up to slot t, oldest first. */
  ghost function Ring<T>(b: seq<T>, p: nat, t: nat): seq<T>
    requires p < |b| && t < |b|
  {
    if p <= t then b[p + 1..t + 1] else b[p + 1..] + b[..t + 1]
  }

  /** The slot n after p, for n no more than the ring has. */
  function Step(p: nat, n: nat, length: nat): nat {
    if p + n >= length then (if p + n < 2 * length then p + n - length else 0) else p + n
  }

  lemma RingFull<T>(b: seq<T>, p: nat, t: nat)
    requires p < |b| && t < |b|
    ensures |Ring(b, p, t)| < |b|
    ensures |Ring(b, p, t)| == |b| - 1 <==> p == Step(t, 1, |b|)
    ensures Ring(b, p, t) == [] <==> p == t
  {
  }

  lemma RingAdd<T>(b: seq<T>, p: nat, t: nat, x: T)
    requires p < |b| && t < |b| && p != Step(t, 1, |b|)
    ensures Step(t, 1, |b|) < |b|
    ensures Ring(b[Step(t, 1, |b|) := x], p, Step(t, 1, |b|)) == Ring(b, p, t) + [x]
  {
    var r := Step(t, 1, |b|);
    var b' := b[r := x];
    if p <= t {
      if r == 0 {
        assert b'[p + 1..] == b[p + 1..t + 1];
      } else {
        assert b'[p + 1..r + 1] == b[p + 1..t + 1] + [x];
      }
    } else {
      assert b'[p + 1..] == b[p + 1..] && b'[..r + 1] == b[..t + 1] + [x];
    }
  }

  lemma RingDrop<T>(b: seq<T>, p: nat, t: nat, n: nat)
    requires p < |b| && t < |b| && n <= |Ring(b, p, t)|
    ensures Step(p, n, |b|) < |b| && Ring(b, Step(p, n, |b|), t) == Ring(b, p, t)[n..]
  {
  }

  lemma RingFirst<T>(b: seq<T>, p: nat, t: nat)
    requires p < |b| && t < |b| && p != t
    ensures var q := Step(p, 1, |b|); q < |b| && Ring(b, p, t) == [b[q]] + Ring(b, q, t)
  {
    RingDrop(b, p, t, 1);
  }

  class Queue<T(0)> {
    const buffer: array<T>
    var qhead: nat   // slot before the first item
    var qtail: nat   // slot of the last item
    var qrptr: nat   // slot of the last item read
    var qitems: nat

    ghost predicate Valid()
      reads this, buffer
    {
      && qhead < buffer.Length && qtail < buffer.Length && qrptr < buffer.Length
      && qitems == |Contents()|
      && |Unread()| <= |Contents()|
    }

    /** The items after slot p, oldest first. */
    ghost function After(p: nat): seq<T>
      requires p < buffer.Length && qtail < buffer.Length
      reads this, buffer
    {
      Ring(buffer[..], p, qtail)
    }

    ghost function Contents(): seq<T>
      requires qhead < buffer.Length && qtail < buffer.Length
      reads this, buffer
    {
      After(qhead)
    }

    ghost function Unread(): seq<T>
      requires qrptr < buffer.Length && qtail < buffer.Length
      reads this, buffer
    {
      After(qrptr)
    }

    function Capacity(): nat
    {
      if buffer.Length == 0 then 0 else buffer.Length - 1
    }

    /** The number of items never exceeds the capacity, and what is left to read is a suffix
        of the contents. */
    lemma Bounds()
      requires Valid()
      ensures |Contents()| <= Capacity()
      ensures Unread() == Contents()[|Contents()| - |Unread()|..]
    {
      RingFull(buffer[..], qhead, qtail);
    }

    // qcreate
    constructor (nitems: nat)
      ensures Valid() && fresh(buffer)
      ensures Contents() == [] && Unread() == [] && Capacity() == nitems
    {
      buffer := new T[nitems + 1];
      qhead, qtail, qrptr, qitems := 0, 0, 0, 0;
    }

    // the slot following p
    function Next(p: nat): (r: nat)
      requires p < buffer.Length
      ensures r == Step(p, 1, buffer.Length) < buffer.Length
    {
      if p + 1 >= buffer.Length then 0 else p + 1
    }

    method QAdd(item: T) returns (s: Status)
      requires Valid()
      modifies this, buffer
      ensures Valid()
      ensures s == if |old(Contents())| == Capacity() then Failure else Success
      ensures s == Success ==> Contents() == old(Contents()) + [item] && Unread() == old(Unread()) + [item]
      ensures s == Failure ==> Contents() == old(Contents()) && Unread() == old(Unread())
    {
      hide Ring, Step;
      ghost var was := buffer[..];
      RingFull(was, qhead, qtail);
      RingFull(was, qrptr, qtail);
      var rear := Next(qtail);
      if qhead == rear {
        return Failure;
      }
      RingAdd(was, qhead, qtail, item);
      RingAdd(was, qrptr, qtail, item);
      buffer[rear] := item;
      assert buffer[..] == was[rear := item];
      qitems := qitems + 1;
      qtail := rear;
      return Success;
    }

    method QRemove() returns (s: Status, item: T)
      requires Valid()
      modifies this
      ensures Valid()
      ensures s == if old(Contents()) == [] then Failure else Success
      ensures s == Success ==> old(Contents()) == [item] + Contents() && Unread() == Contents()
      ensures s == Failure ==> Contents() == [] && Unread() == old(Unread())
    {
      hide Ring, Step;
      item := *;
      RingFull(buffer[..], qhead, qtail);
      if qhead == qtail {
        return Failure, item;
      }
      var front := Next(qhead);
      RingFirst(buffer[..], qhead, qtail);
      item := buffer[front];
      qrptr, qhead := front, front;
      qitems := qitems - 1;
      return Success, item;
    }

    method QRead() returns (s: Status, item: T)
      requires Valid()
      modifies this`qrptr
      ensures Valid() && Contents() == old(Contents())
      ensures s == if old(Unread()) == [] then Failure else Success
      ensures s == Success ==> old(Unread()) == [item] + Unread()
      ensures s == Failure ==> Unread() == []
    {
      hide Ring, Step;
      item := *;
      RingFull(buffer[..], qrptr, qtail);
      if qrptr == qtail {
        return Failure, item;
      }
      var curr := Next(qrptr);
      RingFirst(buffer[..], qrptr, qtail);
      item := buffer[curr];
      qrptr := curr;
      return Success, item;
    }

    method QReset()
      requires Valid()
      modifies this`qrptr
      ensures Valid() && Contents() == old(Contents()) && Unread() == Contents()
    {
      qrptr := qhead;
    }

    method QDelete(nitems: int) returns (s: Status)
      requires Valid()
      modifies this
      ensures Valid()
      ensures s == if nitems < 0 then Fatal else if nitems > |old(Contents())| then Failure else Success
      ensures s == Fatal ==> Contents() == old(Contents()) && Unread() == old(Unread())
      ensures s == Failure ==> Contents() == [] && Unread() == []
      ensures s == Success ==> Contents() == old(Contents())[nitems..] && Unread() == Contents()
    {
      hide Ring;
      RingFull(buffer[..], qhead, qtail);
      RingFull(buffer[..], qtail, qtail);
      if nitems < 0 {
        return Fatal;
      }
      if nitems > qitems {
        qitems := 0;
        qrptr, qhead := qtail, qtail;
        return Failure;
      }
      RingDrop(buffer[..], qhead, qtail, nitems);
      var qtemp := qhead + nitems;
      if qtemp >= buffer.Length {
        qtemp := qtemp - buffer.Length;
      }
      qrptr, qhead := qtemp, qtemp;
      qitems := qitems - nitems;
      return Success;
    }

    method QClear()
      requires Valid()
      modifies this
      ensures Valid() && Contents() == [] && Unread() == []
    {
      qrptr, qhead := qtail, qtail;
      qitems := 0;
    }
  }
}
