/**
  class Interface of networkQ2.py: a FIFO of wire strings over Python's
  queue.Queue, with an optional bound (maxsize <= 0 means unbounded) and an
  mtu that callers set after construction.
*/
module Interfaces {
  import opened Wrappers

  /** queue.Queue.full(): a bounded queue holding maxsize entries or more. */
  predicate AtCapacity(q: seq<string>, maxsize: int)
  {
    0 < maxsize <= |q|
  }

  /** queue.Queue never holds more than a positive maxsize entries. */
  predicate WithinBound(q: seq<string>, maxsize: int)
  {
    maxsize > 0 ==> |q| <= maxsize
  }

  /** A non-blocking put on queue contents `q`: the new contents and whether it was accepted. */
  function Offer(q: seq<string>, x: string, maxsize: int): (seq<string>, bool)
  {
    if AtCapacity(q, maxsize) then (q, false) else (q + [x], true)
  }

  /** Non-blocking puts of `xs`, one after the other, with the outcome of each. */
  function OfferAll(q: seq<string>, xs: seq<string>, maxsize: int): (seq<string>, seq<bool>)
    decreases |xs|
  {
    if xs == [] then (q, [])
    else
      var (q1, ok) := Offer(q, xs[0], maxsize);
      var (q2, oks) := OfferAll(q1, xs[1..], maxsize);
      (q2, [ok] + oks)
  }

  /** Number of further entries a queue holding `len` entries admits out of `n` offered. */
  function Room(len: nat, n: nat, maxsize: int): nat
  {
    if maxsize <= 0 || len + n <= maxsize then n
    else if len >= maxsize then 0
    else maxsize - len
  }

  /**
    A run of non-blocking puts keeps the bound, appends the longest prefix of
    `xs` that fits, and reports Full for exactly the rest. In particular an
    unbounded queue (maxsize <= 0) accepts everything, and C + 1 puts on an
    empty queue of capacity C accept the first C and refuse the last.
  */
  lemma {:induction false} OfferAllFillsToCapacity(q: seq<string>, xs: seq<string>, maxsize: int)
    ensures var (q', oks) := OfferAll(q, xs, maxsize);
      var room := Room(|q|, |xs|, maxsize);
      && q' == q + xs[..room]
      && |oks| == |xs|
      && (forall i :: 0 <= i < |xs| ==> (oks[i] <==> i < room))
    decreases |xs|
  {
    if xs != [] {
      var (q1, ok) := Offer(q, xs[0], maxsize);
      OfferAllFillsToCapacity(q1, xs[1..], maxsize);
      var (q2, oks) := OfferAll(q1, xs[1..], maxsize);
      var room := Room(|q|, |xs|, maxsize);
      if ok {
        assert Room(|q1|, |xs[1..]|, maxsize) == room - 1;
        assert xs[..room] == [xs[0]] + xs[1..][..room - 1];
      } else {
        assert room == 0;
        assert xs[1..][..0] == [];
      }
      var oks' := [ok] + oks;
      forall i | 0 <= i < |xs| ensures oks'[i] <==> i < room {
        if i > 0 { assert oks'[i] == oks[i - 1]; }
      }
    }
  }

  class Interface {
    /** The entries of the underlying queue.Queue, oldest first. */
    var queue: seq<string>
    /** queue.Queue's maxsize: the bound when positive, otherwise unbounded. */
    const maxsize: int
    /** The interface's MTU; `None` until a caller sets it. */
    var mtu: Option<int>

    /** The queue is within its bound. */
    ghost predicate Valid()
      reads this
    {
      WithinBound(queue, maxsize)
    }

    /** Interface.__init__(maxsize). */
    constructor (maxsize: int)
      ensures Valid()
      ensures this.maxsize == maxsize && queue == [] && mtu == None
    {
      this.maxsize := maxsize;
      queue := [];
      mtu := None;
    }

    /** Interface.get: a non-blocking dequeue that gives None on an empty queue. */
    method Get() returns (pkt: Option<string>)
      modifies this
      ensures old(queue) == [] ==> pkt == None && queue == []
      ensures old(queue) != [] ==> pkt == Some(old(queue)[0]) && queue == old(queue)[1..]
      ensures mtu == old(mtu)
      ensures old(Valid()) ==> Valid()
    {
      if queue == [] {
        pkt := None;
      } else {
        pkt := Some(queue[0]);
        queue := queue[1..];
      }
    }

    /**
      Interface.put: `ok` is false where queue.Queue raises Full, in which
      case nothing changes; otherwise the entry goes to the tail.
    */
    method Put(pkt: string) returns (ok: bool)
      modifies this
      ensures ok <==> !old(AtCapacity(queue, maxsize))
      ensures queue == if ok then old(queue) + [pkt] else old(queue)
      ensures (queue, ok) == Offer(old(queue), pkt, maxsize)
      ensures mtu == old(mtu)
      ensures old(Valid()) ==> Valid()
    {
      if AtCapacity(queue, maxsize) {
        ok := false;
      } else {
        queue := queue + [pkt];
        ok := true;
      }
    }
  }
}
