/**
  The wire format of a network packet: a five-character zero-padded
  destination address, a one-character end flag, then the payload
  (class NetworkPacket of networkQ2.py).

  Python's `str`, `str.zfill` and `int` are modelled on ASCII decimal digits.
*/
module Codec {

  /** Width of the address field (NetworkPacket.dst_addr_S_length). */
  const DstAddrLength: nat := 5
  /** Width of the end-flag field (NetworkPacket.endFlag_length). */
  const EndFlagLength: nat := 1
  /** Characters before the payload on the wire. */
  const HeaderLength: nat := DstAddrLength + EndFlagLength
  /** The first address that no longer fits the five-digit field. */
  const AddrLimit: nat := 100000

  datatype NetworkPacket = NetworkPacket(dstAddr: int, dataS: string, endFlag: int)

  // ---------------------------------------------------------------------
  // Decimal digits
  // ---------------------------------------------------------------------

  predicate IsDigit(c: char) { '0' <= c <= '9' }

  predicate AllDigits(s: string) { forall i :: 0 <= i < |s| ==> IsDigit(s[i]) }

  function DigitValue(c: char): (d: nat)
    requires IsDigit(c)
    ensures d < 10
  {
    c as int - '0' as int
  }

  function DigitChar(d: nat): (c: char)
    requires d < 10
    ensures IsDigit(c) && DigitValue(c) == d
  {
    ('0' as int + d) as char
  }

  function Pow10(k: nat): (p: nat)
    ensures p >= 1
  {
    if k == 0 then 1 else 10 * Pow10(k - 1)
  }

  /** Python's `str(n)` for a non-negative integer. */
  function NatToStr(n: nat): (s: string)
    ensures |s| >= 1 && AllDigits(s)
    decreases n
  {
    if n < 10 then [DigitChar(n)] else NatToStr(n / 10) + [DigitChar(n % 10)]
  }

  /** Python's `str(n)` for any integer. */
  function IntToStr(n: int): (s: string)
    ensures |s| >= 1
    ensures n < 0 <==> s[0] == '-'
    decreases if n < 0 then 1 else 0
  {
    if n < 0 then "-" + IntToStr(-n) else NatToStr(n)
  }

  /** Python's `int(s)` on a string of ASCII digits. */
  function StrToNat(s: string): (n: nat)
    requires AllDigits(s)
    ensures n < Pow10(|s|)
  {
    if s == [] then 0 else StrToNat(s[..|s| - 1]) * 10 + DigitValue(s[|s| - 1])
  }

  function Zeros(k: nat): (z: string)
    ensures |z| == k && AllDigits(z)
  {
    seq(k, _ => '0')
  }

  /** Python's `s.zfill(width)`: pads with '0' after an optional sign, never truncates. */
  function ZFill(s: string, width: nat): (r: string)
    ensures |r| == if |s| >= width then |s| else width
  {
    if |s| >= width then s
    else if |s| > 0 && (s[0] == '+' || s[0] == '-') then [s[0]] + Zeros(width - |s|) + s[1..]
    else Zeros(width - |s|) + s
  }

  // ---------------------------------------------------------------------
  // Encoding and decoding
  // ---------------------------------------------------------------------

  /** NetworkPacket.to_byte_S. */
  function ToByteS(p: NetworkPacket): (b: string)
    ensures |b| >= HeaderLength + |p.dataS|
  {
    ZFill(IntToStr(p.dstAddr), DstAddrLength) + IntToStr(p.endFlag) + p.dataS
  }

  /** The strings on which both `int()` calls of from_byte_S succeed, restricted to ASCII digits. */
  predicate WellFormed(b: string)
  {
    |b| >= HeaderLength && AllDigits(b[..HeaderLength])
  }

  /** NetworkPacket.from_byte_S. */
  function FromByteS(b: string): (p: NetworkPacket)
    requires WellFormed(b)
    ensures 0 <= p.dstAddr < AddrLimit && 0 <= p.endFlag < 10
    ensures |p.dataS| == |b| - HeaderLength
  {
    assert Pow10(DstAddrLength) == AddrLimit;
    NetworkPacket(StrToNat(b[..DstAddrLength]), b[HeaderLength..], StrToNat(b[DstAddrLength..HeaderLength]))
  }

  /** Packets whose fields survive the fixed-width layout. */
  predicate Encodable(p: NetworkPacket)
  {
    0 <= p.dstAddr < AddrLimit && 0 <= p.endFlag < 10
  }

  // ---------------------------------------------------------------------
  // Lemmas about the digit functions
  // ---------------------------------------------------------------------

  lemma {:induction false} NatToStrLength(n: nat, k: nat)
    requires 1 <= k && n < Pow10(k)
    ensures |NatToStr(n)| <= k
    decreases n
  {
    if n >= 10 {
      assert k >= 2;
      NatToStrLength(n / 10, k - 1);
    }
  }

  lemma StrToNatSnoc(s: string, c: char)
    requires AllDigits(s) && IsDigit(c)
    ensures AllDigits(s + [c])
    ensures StrToNat(s + [c]) == StrToNat(s) * 10 + DigitValue(c)
  {
    assert (s + [c])[..|s|] == s;
  }

  lemma {:induction false} StrToNatOfNatToStr(n: nat)
    ensures StrToNat(NatToStr(n)) == n
    decreases n
  {
    if n < 10 {
      StrToNatSnoc([], DigitChar(n));
      assert [] + [DigitChar(n)] == [DigitChar(n)];
    } else {
      StrToNatOfNatToStr(n / 10);
      StrToNatSnoc(NatToStr(n / 10), DigitChar(n % 10));
    }
  }

  lemma {:induction false} StrToNatLeadingZeros(k: nat, s: string)
    requires AllDigits(s)
    ensures AllDigits(Zeros(k) + s)
    ensures StrToNat(Zeros(k) + s) == StrToNat(s)
    decreases |s|
  {
    if s == [] {
      assert Zeros(k) + s == Zeros(k);
      AllZerosValue(Zeros(k));
    } else {
      var t, c := s[..|s| - 1], s[|s| - 1];
      assert s == t + [c];
      assert Zeros(k) + s == (Zeros(k) + t) + [c];
      StrToNatLeadingZeros(k, t);
      StrToNatSnoc(Zeros(k) + t, c);
      StrToNatSnoc(t, c);
    }
  }

  lemma {:induction false} AllZerosValue(z: string)
    requires forall i :: 0 <= i < |z| ==> z[i] == '0'
    ensures AllDigits(z) && StrToNat(z) == 0
    decreases |z|
  {
    if z != [] {
      AllZerosValue(z[..|z| - 1]);
    }
  }

  lemma {:induction false} ZeroValueIsZeros(s: string)
    requires AllDigits(s) && StrToNat(s) == 0
    ensures s == Zeros(|s|)
    decreases |s|
  {
    if s != [] {
      var t := s[..|s| - 1];
      ZeroValueIsZeros(t);
      assert s == t + [s[|s| - 1]];
    }
  }

  /** zfill on a digit string: left padding only. */
  lemma ZFillDigits(s: string, width: nat)
    requires |s| >= 1 && IsDigit(s[0])
    ensures ZFill(s, width) == if |s| >= width then s else Zeros(width - |s|) + s
  {
  }

  /** Appending a digit to a positive number's decimal form. */
  lemma NatToStrSnoc(q: nat, d: nat)
    requires q > 0 && d < 10
    ensures NatToStr(q * 10 + d) == NatToStr(q) + [DigitChar(d)]
  {
    var m := q * 10 + d;
    assert m / 10 == q && m % 10 == d;
  }

  /** Printing the value of a digit string zero-padded to its own width gives it back. */
  lemma {:induction false} PaddedRepr(s: string)
    requires |s| >= 1 && AllDigits(s)
    ensures ZFill(NatToStr(StrToNat(s)), |s|) == s
    decreases |s|
  {
    var t, c := s[..|s| - 1], s[|s| - 1];
    assert s == t + [c];
    var d := DigitValue(c);
    StrToNatSnoc(t, c);
    if StrToNat(t) == 0 {
      ZeroValueIsZeros(t);
      assert NatToStr(StrToNat(s)) == [c];
      ZFillDigits([c], |s|);
    } else {
      PaddedRepr(t);
      PaddedReprStep(t, c, StrToNat(t));
    }
  }

  lemma PaddedReprStep(t: string, c: char, q: nat)
    requires IsDigit(c) && q > 0 && ZFill(NatToStr(q), |t|) == t
    ensures ZFill(NatToStr(q * 10 + DigitValue(c)), |t| + 1) == t + [c]
  {
    var d := DigitValue(c);
    NatToStrSnoc(q, d);
    assert DigitChar(d) == c;
    ZFillSnoc(NatToStr(q), c, |t|);
  }

  /** Zero-padding a digit string commutes with appending a digit. */
  lemma ZFillSnoc(x: string, c: char, width: nat)
    requires |x| >= 1 && IsDigit(x[0]) && IsDigit(c)
    ensures ZFill(x + [c], width + 1) == ZFill(x, width) + [c]
  {
    if |x| < width {
      var z := Zeros(width - |x|);
      assert ZFill(x + [c], width + 1) == z + (x + [c]);
      assert z + (x + [c]) == (z + x) + [c];
    }
  }

  // ---------------------------------------------------------------------
  // Properties of the codec
  // ---------------------------------------------------------------------

  /** The address field of an encodable packet: five digits that read back as the address. */
  lemma AddressField(addr: int)
    requires 0 <= addr < AddrLimit
    ensures var h := ZFill(IntToStr(addr), DstAddrLength);
      |h| == DstAddrLength && AllDigits(h) && StrToNat(h) == addr
  {
    var a := NatToStr(addr);
    assert Pow10(DstAddrLength) == AddrLimit;
    NatToStrLength(addr, DstAddrLength);
    ZFillDigits(a, DstAddrLength);
    StrToNatLeadingZeros(DstAddrLength - |a|, a);
    StrToNatOfNatToStr(addr);
  }

  /** The layout of an encodable packet on the wire. */
  lemma EncodeLayout(p: NetworkPacket)
    requires Encodable(p)
    ensures var b := ToByteS(p);
      && |b| == HeaderLength + |p.dataS|
      && WellFormed(b)
      && StrToNat(b[..DstAddrLength]) == p.dstAddr
      && b[DstAddrLength] == DigitChar(p.endFlag)
      && b[HeaderLength..] == p.dataS
  {
    var h := ZFill(IntToStr(p.dstAddr), DstAddrLength);
    AddressField(p.dstAddr);
    var f := DigitChar(p.endFlag);
    assert IntToStr(p.endFlag) == [f];
    var b := h + [f] + p.dataS;
    assert ToByteS(p) == b;
    assert b[..DstAddrLength] == h;
    assert b[..HeaderLength] == h + [f];
    assert b[HeaderLength..] == p.dataS;
  }

  /** Decoding an encoded packet gives back the packet exactly when its fields fit the layout. */
  lemma RoundTrip(p: NetworkPacket)
    ensures (WellFormed(ToByteS(p)) && FromByteS(ToByteS(p)) == p) <==> Encodable(p)
  {
    if Encodable(p) {
      EncodeLayout(p);
      var b := ToByteS(p);
      assert b[DstAddrLength..HeaderLength] == [DigitChar(p.endFlag)];
      StrToNatSnoc([], DigitChar(p.endFlag));
      assert [] + [DigitChar(p.endFlag)] == [DigitChar(p.endFlag)];
    }
  }

  /** Re-encoding a decoded well-formed string reproduces it character for character. */
  lemma ReencodeIdentity(b: string)
    requires WellFormed(b)
    ensures ToByteS(FromByteS(b)) == b
  {
    var h := b[..DstAddrLength];
    assert AllDigits(h) by {
      assert forall i :: 0 <= i < |h| ==> h[i] == b[..HeaderLength][i];
    }
    var p := FromByteS(b);
    PaddedRepr(h);
    assert b[DstAddrLength..HeaderLength] == [b[DstAddrLength]];
    assert IsDigit(b[DstAddrLength]) by {
      assert b[DstAddrLength] == b[..HeaderLength][DstAddrLength];
    }
    StrToNatSnoc([], b[DstAddrLength]);
    assert [] + [b[DstAddrLength]] == [b[DstAddrLength]];
    assert p.endFlag == DigitValue(b[DstAddrLength]);
    assert DigitChar(p.endFlag) == b[DstAddrLength];
    assert IntToStr(p.endFlag) == [b[DstAddrLength]];
    assert b == h + [b[DstAddrLength]] + b[HeaderLength..];
  }
}
