/**
  class Host of networkQ2.py: segmentation of a message into packets of at
  most mtu - 8 payload characters (udt_send) and reassembly of received
  fragments in the single buffer wholePacket (udt_receive).
*/
module Hosts {
  import opened Wrappers
  import opened Codec
  import opened Interfaces

  /** The characters udt_send reserves per packet (`nonData`). */
  const NonData: int := 8

  /** udt_send's loop ends: every cut removes at least one character, or there is nothing to cut. */
  predicate SendTerminates(mtu: int, dataS: string)
  {
    mtu > NonData || (mtu == NonData && dataS == [])
  }

  /** The packets udt_send builds for `data` when each carries at most `w` = mtu - 8 characters. */
  function Segment(dstAddr: int, data: string, w: int): seq<NetworkPacket>
    requires w > 0 || (w == 0 && data == [])
    decreases |data|
  {
    if |data| > w then [NetworkPacket(dstAddr, data[..w], 0)] + Segment(dstAddr, data[w..], w)
    else [NetworkPacket(dstAddr, data, 1)]
  }

  /** The payloads of `ps`, concatenated in order. */
  function Payloads(ps: seq<NetworkPacket>): string
  {
    if ps == [] then [] else ps[0].dataS + Payloads(ps[1..])
  }

  /** The wire strings of `ps`, in order. */
  function Wires(ps: seq<NetworkPacket>): (ws: seq<string>)
    ensures |ws| == |ps|
  {
    if ps == [] then [] else [ToByteS(ps[0])] + Wires(ps[1..])
  }

  lemma {:induction false} WiresAt(ps: seq<NetworkPacket>, i: nat)
    requires i < |ps|
    ensures Wires(ps)[i] == ToByteS(ps[i])
    decreases i
  {
    if i > 0 {
      WiresAt(ps[1..], i - 1);
    }
  }

  lemma {:induction false} WiresSnoc(ps: seq<NetworkPacket>, p: NetworkPacket)
    ensures Wires(ps + [p]) == Wires(ps) + [ToByteS(p)]
    decreases |ps|
  {
    if ps == [] {
      assert ps + [p] == [p];
    } else {
      assert (ps + [p])[1..] == ps[1..] + [p];
      WiresSnoc(ps[1..], p);
    }
  }

  // ---------------------------------------------------------------------
  // Segmentation
  // ---------------------------------------------------------------------

  /** Concatenating the payloads of the fragments gives back the message. */
  lemma {:induction false} SegmentReassembles(dstAddr: int, data: string, w: int)
    requires w > 0 || (w == 0 && data == [])
    ensures Payloads(Segment(dstAddr, data, w)) == data
    decreases |data|
  {
    if |data| > w {
      SegmentReassembles(dstAddr, data[w..], w);
      assert data[..w] + data[w..] == data;
    }
  }

  /**
    At least one packet, all addressed to dstAddr; every packet but the last
    carries exactly w characters with flag 0, the last carries at most w with
    flag 1, and it is empty only when the message is.
  */
  lemma {:induction false} SegmentShape(dstAddr: int, data: string, w: int)
    requires w > 0 || (w == 0 && data == [])
    ensures var ps := Segment(dstAddr, data, w);
      && |ps| >= 1
      && (forall i :: 0 <= i < |ps| ==> ps[i].dstAddr == dstAddr)
      && (forall i :: 0 <= i < |ps| - 1 ==> ps[i].endFlag == 0 && |ps[i].dataS| == w)
      && ps[|ps| - 1].endFlag == 1
      && |ps[|ps| - 1].dataS| <= w
      && (ps[|ps| - 1].dataS == [] <==> data == [])
    decreases |data|
  {
    if |data| > w {
      SegmentShape(dstAddr, data[w..], w);
      var rest := Segment(dstAddr, data[w..], w);
      var ps := Segment(dstAddr, data, w);
      assert ps == [NetworkPacket(dstAddr, data[..w], 0)] + rest;
      forall i | 1 <= i < |ps| ensures ps[i] == rest[i - 1] { }
    }
  }

  /** For an address that fits five digits, every wire string is 6 + payload long, so at most mtu - 2. */
  lemma SegmentWireLength(dstAddr: int, data: string, w: int)
    requires 0 <= dstAddr < AddrLimit
    requires w > 0 || (w == 0 && data == [])
    ensures var ps := Segment(dstAddr, data, w);
      forall i :: 0 <= i < |ps| ==>
        |Wires(ps)[i]| == HeaderLength + |ps[i].dataS| <= HeaderLength + w
  {
    var ps := Segment(dstAddr, data, w);
    SegmentShape(dstAddr, data, w);
    forall i | 0 <= i < |ps|
      ensures |Wires(ps)[i]| == HeaderLength + |ps[i].dataS| <= HeaderLength + w
    {
      EncodedWire(ps, i);
    }
  }

  // ---------------------------------------------------------------------
  // Reassembly
  // ---------------------------------------------------------------------

  /** The wire strings udt_receive handles without an IndexError or a ValueError. */
  predicate Receivable(pkt: string)
  {
    |pkt| > HeaderLength - 1 && IsDigit(pkt[DstAddrLength])
  }

  /** One received wire string: the new buffer and the completed message, if any. */
  function ReceiveStep(buffer: string, pkt: string): (string, Option<string>)
    requires Receivable(pkt)
  {
    var whole := buffer + pkt[HeaderLength..];
    if DigitValue(pkt[DstAddrLength]) == 1 then ("", Some(whole)) else (whole, None)
  }

  datatype Delivery = Delivery(buffer: string, messages: seq<string>)

  /** Receiving `ws` in order from buffer contents `buffer`: the final buffer and the completed messages. */
  function Deliver(buffer: string, ws: seq<string>): Delivery
    requires forall i :: 0 <= i < |ws| ==> Receivable(ws[i])
    decreases |ws|
  {
    if ws == [] then Delivery(buffer, [])
    else
      var (next, msg) := ReceiveStep(buffer, ws[0]);
      var rest := Deliver(next, ws[1..]);
      Delivery(rest.buffer, (if msg.Some? then [msg.value] else []) + rest.messages)
  }

  /** Every wire string of a segmented message, for an address that fits, is receivable. */
  lemma SegmentWiresReceivable(dstAddr: int, data: string, w: int)
    requires 0 <= dstAddr < AddrLimit
    requires w > 0 || (w == 0 && data == [])
    ensures var ws := Wires(Segment(dstAddr, data, w));
      forall i :: 0 <= i < |ws| ==> Receivable(ws[i])
  {
    var ps := Segment(dstAddr, data, w);
    SegmentShape(dstAddr, data, w);
    forall i | 0 <= i < |ps| ensures Receivable(Wires(ps)[i]) {
      EncodedWire(ps, i);
    }
  }

  /** The i-th wire string of encodable packets: header plus payload, with a digit flag. */
  lemma EncodedWire(ps: seq<NetworkPacket>, i: nat)
    requires i < |ps| && Encodable(ps[i])
    ensures |Wires(ps)[i]| == HeaderLength + |ps[i].dataS|
    ensures Receivable(Wires(ps)[i])
  {
    WiresAt(ps, i);
    EncodeLayout(ps[i]);
  }

  /** Receiving an encoded packet appends its payload, and completes the message exactly on flag 1. */
  lemma ReceiveEncoded(buffer: string, p: NetworkPacket)
    requires Encodable(p)
    ensures Receivable(ToByteS(p))
    ensures ReceiveStep(buffer, ToByteS(p)) ==
      if p.endFlag == 1 then ("", Some(buffer + p.dataS)) else (buffer + p.dataS, None)
  {
    EncodeLayout(p);
  }

  /**
    Receiving the wire strings of encodable packets whose flags are 0 except
    for a final 1 completes one message: the buffer followed by all payloads.
  */
  lemma {:induction false} DeliverOneMessage(buffer: string, ps: seq<NetworkPacket>)
    requires |ps| >= 1 && forall i :: 0 <= i < |ps| ==> Encodable(ps[i])
    requires forall i :: 0 <= i < |ps| - 1 ==> ps[i].endFlag == 0
    requires ps[|ps| - 1].endFlag == 1
    ensures forall i :: 0 <= i < |ps| ==> Receivable(Wires(ps)[i])
    ensures Deliver(buffer, Wires(ps)) == Delivery("", [buffer + Payloads(ps)])
    decreases |ps|
  {
    var ws := Wires(ps);
    forall i | 0 <= i < |ps| ensures Receivable(ws[i]) {
      WiresAt(ps, i);
      ReceiveEncoded(buffer, ps[i]);
    }
    ReceiveEncoded(buffer, ps[0]);
    if |ps| == 1 {
      assert ps[0].endFlag == 1;
      assert ReceiveStep(buffer, ws[0]) == ("", Some(buffer + ps[0].dataS));
      assert ws[1..] == Wires(ps[1..]) == [];
      assert Deliver("", ws[1..]) == Delivery("", []);
      assert Payloads(ps) == ps[0].dataS + Payloads(ps[1..]) == ps[0].dataS;
    } else {
      DeliverOneMessage(buffer + ps[0].dataS, ps[1..]);
      assert buffer + ps[0].dataS + Payloads(ps[1..]) == buffer + Payloads(ps);
    }
  }

  /**
    Receiving the wire strings of one segmented message completes exactly one
    message, the buffer contents followed by the original message, and leaves
    the buffer empty.
  */
  lemma SegmentThenDeliver(buffer: string, dstAddr: int, data: string, w: int)
    requires 0 <= dstAddr < AddrLimit
    requires w > 0 || (w == 0 && data == [])
    ensures var ws := Wires(Segment(dstAddr, data, w));
      && (forall i :: 0 <= i < |ws| ==> Receivable(ws[i]))
      && Deliver(buffer, ws) == Delivery("", [buffer + data])
  {
    var ps := Segment(dstAddr, data, w);
    SegmentShape(dstAddr, data, w);
    SegmentReassembles(dstAddr, data, w);
    DeliverOneMessage(buffer, ps);
  }

  /** Receiving two runs of wire strings one after the other delivers the messages of both, in order. */
  lemma {:induction false} DeliverAppend(buffer: string, a: seq<string>, b: seq<string>)
    requires forall i :: 0 <= i < |a| ==> Receivable(a[i])
    requires forall i :: 0 <= i < |b| ==> Receivable(b[i])
    ensures forall i :: 0 <= i < |a + b| ==> Receivable((a + b)[i])
    ensures var first := Deliver(buffer, a);
      var second := Deliver(first.buffer, b);
      Deliver(buffer, a + b) == Delivery(second.buffer, first.messages + second.messages)
    decreases |a|
  {
    ReceivableAppend(a, b);
    if a == [] {
      assert a + b == b;
    } else {
      var (next, msg) := ReceiveStep(buffer, a[0]);
      ReceivableAppend(a[1..], b);
      DeliverAppend(next, a[1..], b);
      assert (a + b)[0] == a[0] && (a + b)[1..] == a[1..] + b;
    }
  }

  lemma ReceivableAppend(a: seq<string>, b: seq<string>)
    requires forall i :: 0 <= i < |a| ==> Receivable(a[i])
    requires forall i :: 0 <= i < |b| ==> Receivable(b[i])
    ensures forall i :: 0 <= i < |a + b| ==> Receivable((a + b)[i])
  {
    forall i | 0 <= i < |a + b| ensures Receivable((a + b)[i]) {
      if i < |a| { assert (a + b)[i] == a[i]; } else { assert (a + b)[i] == b[i - |a|]; }
    }
  }

  /**
    zfill never truncates, so a six-digit address puts its last digit where
    udt_receive reads the flag: "ABC" sent to address 100000 two characters
    at a time gives "1000000AB" and "1000001C", both read as flag 0, and no
    message is ever completed.
  */
  lemma WideAddressMisparsed()
    ensures var ws := Wires(Segment(100000, "ABC", 2));
      && |ws| == 2
      && (forall i :: 0 <= i < |ws| ==> Receivable(ws[i]) && ws[i][DstAddrLength] == '0')
      && Deliver("", ws).messages == []
  {
  }

  /** Two messages sent back to back are completed separately, in the order sent. */
  lemma TwoMessagesInOrder(dstAddr: int, m1: string, m2: string, w: int)
    requires 0 <= dstAddr < AddrLimit && w > 0
    ensures var ws := Wires(Segment(dstAddr, m1, w)) + Wires(Segment(dstAddr, m2, w));
      && (forall i :: 0 <= i < |ws| ==> Receivable(ws[i]))
      && Deliver("", ws) == Delivery("", [m1, m2])
  {
    var a, b := Wires(Segment(dstAddr, m1, w)), Wires(Segment(dstAddr, m2, w));
    SegmentThenDeliver("", dstAddr, m1, w);
    SegmentThenDeliver("", dstAddr, m2, w);
    DeliverAppend("", a, b);
    assert Deliver("", a) == Delivery("", ["" + m1]);
    assert "" + m1 == m1 && "" + m2 == m2;
  }

  /**
    The first half of Host.udt_send: the loop that cuts pieces of mtu - 8
    characters off the front of dataS while the rest does not fit, then
    adds the remainder as the final packet.
  */
  method SegmentLoop(dstAddr: int, dataS: string, mtu: int) returns (packet: seq<NetworkPacket>)
    requires SendTerminates(mtu, dataS)
    ensures packet == Segment(dstAddr, dataS, mtu - NonData)
  {
    ghost var w := mtu - NonData;
    packet := [];
    var data := dataS;
    if |data| + NonData > mtu {
      while |data| + NonData > mtu
        invariant w > 0 || (w == 0 && data == [])
        invariant packet + Segment(dstAddr, data, w) == Segment(dstAddr, dataS, w)
        decreases |data|
      {
        var dataPiece := data[..mtu - NonData];
        data := data[mtu - NonData..];
        packet := packet + [NetworkPacket(dstAddr, dataPiece, 0)];
      }
    }
    packet := packet + [NetworkPacket(dstAddr, data, 1)];
  }

  // ---------------------------------------------------------------------
  // The host
  // ---------------------------------------------------------------------

  class Host {
    const addr: int
    /** in_intf_L[0]: the host's only input interface. */
    const inIntf: Interface
    /** out_intf_L[0]: the host's only output interface. */
    const outIntf: Interface
    /** The payload received so far of the message being reassembled. */
    var wholePacket: string

    /** Two distinct interfaces, both created unbounded (Interface() has maxsize 0). */
    predicate Valid()
    {
      inIntf != outIntf && inIntf.maxsize == 0 && outIntf.maxsize == 0
    }

    /** Host.__init__(addr). */
    constructor (addr: int)
      ensures Valid() && this.addr == addr
      ensures fresh(inIntf) && fresh(outIntf)
      ensures inIntf.queue == [] && outIntf.queue == []
      ensures inIntf.mtu == None && outIntf.mtu == None
      ensures wholePacket == ""
    {
      this.addr := addr;
      inIntf := new Interface(0);
      outIntf := new Interface(0);
      wholePacket := "";
    }

    /**
      Host.udt_send: cuts dataS into packets of at most mtu - 8 characters,
      flag 0 on all but the last, and enqueues their wire strings in order.
    */
    method UdtSend(dstAddr: int, dataS: string)
      requires Valid()
      requires outIntf.mtu.Some? && SendTerminates(outIntf.mtu.value, dataS)
      modifies outIntf
      ensures outIntf.mtu == old(outIntf.mtu)
      ensures outIntf.queue == old(outIntf.queue) + Wires(Segment(dstAddr, dataS, outIntf.mtu.value - NonData))
    {
      var packet := SegmentLoop(dstAddr, dataS, outIntf.mtu.value);
      Transmit(packet);
    }

    /** The second half of Host.udt_send: a non-blocking put of each packet's wire string, in order. */
    method Transmit(packet: seq<NetworkPacket>)
      requires outIntf.maxsize == 0
      modifies outIntf
      ensures outIntf.mtu == old(outIntf.mtu)
      ensures outIntf.queue == old(outIntf.queue) + Wires(packet)
    {
      var o := outIntf;
      for k := 0 to |packet|
        invariant o.queue == old(o.queue) + Wires(packet[..k])
        invariant o.mtu == old(o.mtu)
      {
        var ok := o.Put(ToByteS(packet[k]));
        assert packet[..k + 1] == packet[..k] + [packet[k]];
        WiresSnoc(packet[..k], packet[k]);
      }
      assert packet[..|packet|] == packet;
    }

    /**
      Host.udt_receive: takes at most one wire string from the input
      interface, appends its payload to wholePacket and, on flag 1, returns
      the completed message and empties the buffer.
    */
    method UdtReceive() returns (received: Option<string>)
      requires Valid()
      requires inIntf.queue != [] ==> Receivable(inIntf.queue[0])
      modifies this, inIntf
      ensures old(inIntf.queue) == [] ==>
        received == None && wholePacket == old(wholePacket) && inIntf.queue == []
      ensures old(inIntf.queue) != [] ==>
        && inIntf.queue == old(inIntf.queue)[1..]
        && (old(inIntf.queue)[0][DstAddrLength] == '1' ==>
              received == Some(old(wholePacket) + old(inIntf.queue)[0][HeaderLength..]) && wholePacket == "")
        && (old(inIntf.queue)[0][DstAddrLength] != '1' ==>
              received == None && wholePacket == old(wholePacket) + old(inIntf.queue)[0][HeaderLength..])
        && (wholePacket, received) == ReceiveStep(old(wholePacket), old(inIntf.queue)[0])
      ensures inIntf.mtu == old(inIntf.mtu) && unchanged(outIntf)
    {
      var pktS := inIntf.Get();
      received := None;
      if pktS.Some? {
        var pkt := pktS.value;
        wholePacket := wholePacket + pkt[HeaderLength..];
        if DigitValue(pkt[DstAddrLength]) == 1 {
          received := Some(wholePacket);
          wholePacket := "";
        }
      }
    }
  }
}
