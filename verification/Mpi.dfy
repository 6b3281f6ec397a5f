/** The byte stream a big number is exchanged in: a four-byte length and then
    the magnitude, most significant byte first, whose top bit is the sign. */
module Mpi {
  import opened Common
  import opened Radix

  type Bytes = ds: seq<nat> | forall d <- ds :: d < 256

  function Reverse<T>(xs: seq<T>): (r: seq<T>)
    ensures |r| == |xs| && forall i | 0 <= i < |xs| :: r[i] == xs[|xs| - 1 - i]
  {
    seq(|xs|, i requires 0 <= i < |xs| => xs[|xs| - 1 - i])
  }

  lemma ReverseTwice<T>(xs: seq<T>)
    ensures Reverse(Reverse(xs)) == xs
  {
  }

  lemma ReverseAppend<T>(xs: seq<T>, x: T)
    ensures Reverse(xs + [x]) == [x] + Reverse(xs)
  {
  }

  /** The bytes of a number after the length: a byte goes in front where the
      magnitude would reach into the sign bit. */
  function Payload(negative: bool, m: nat): Bytes {
    var ds := Digits(m, 256);
    if m == 0 then []
    else if ds[0] >= 0x80 then [if negative then 0x80 else 0] + ds
    else if negative then [ds[0] + 0x80] + ds[1..]
    else ds
  }

  function PayloadOf(n: int): Bytes { Payload(n < 0, Abs(n)) }

  function PayloadValue(p: Bytes): int {
    if p == [] then 0
    else if p[0] >= 0x80 then
      var m: int := Value([p[0] - 0x80] + p[1..], 256);
      -m
    else Value(p, 256)
  }

  function Header(k: nat): Bytes {
    [(k / 0x100_0000) % 0x100, (k / 0x1_0000) % 0x100, (k / 0x100) % 0x100, k % 0x100]
  }

  function HeaderValue(d: Bytes): nat
    requires |d| >= 4
  {
    d[0] * 0x100_0000 + d[1] * 0x1_0000 + d[2] * 0x100 + d[3]
  }

  function FromBn(n: int): Bytes { Header(|PayloadOf(n)|) + PayloadOf(n) }

  /** Reading a stream: nothing, if it is too short or its length is wrong. */
  function ToBn(d: Bytes): Option<int> {
    if |d| < 4 || HeaderValue(d) + 4 != |d| then None
    else Some(PayloadValue(d[4..]))
  }

  /** No byte in front that could be spared. */
  predicate Economical(p: Bytes) {
    && (p != [] && p[0] in {0, 0x80} ==> |p| > 1 && p[1] >= 0x80)
  }

  lemma {:induction false} PayloadRoundTrip(n: int)
    ensures PayloadValue(PayloadOf(n)) == n && Economical(PayloadOf(n))
  {
    hide Digits, Value;
    var ds := Digits(Abs(n), 256);
    ValueDigits(Abs(n), 256);
    if n != 0 {
      if ds[0] >= 0x80 {
        assert Zeros(1) == [0];
        LeadingZeros(1, ds, 256);
        var p := PayloadOf(n);
        assert p[1..] == ds;
      } else if n < 0 {
        var p := PayloadOf(n);
        assert [p[0] - 0x80] + p[1..] == ds;
      }
    }
  }

  /** A first byte that only carries the sign. */
  lemma SignByte(p: Bytes)
    requires |p| > 1 && p[0] in {0, 0x80} && p[1] >= 0x80
    ensures PayloadOf(PayloadValue(p)) == p
  {
    var rest: Bytes := p[1..];
    assert Zeros(1) == [0];
    assert p[0] == 0 ==> p == [0] + rest;
    LeadingZeros(1, rest, 256);
    DigitsValue(rest, 256);
    ValuePositive(rest);
    assert p == [p[0]] + rest;
    hide Value, Digits, Zeros;
  }

  /** A first byte that carries part of the magnitude, and no sign. */
  lemma PositiveByte(p: Bytes)
    requires p != [] && 0 < p[0] < 0x80
    ensures PayloadOf(PayloadValue(p)) == p
  {
    hide Value, Digits;
    DigitsValue(p, 256);
    ValuePositive(p);
  }

  /** A first byte that carries part of the magnitude below the sign. */
  lemma NegativeByte(p: Bytes)
    requires p != [] && p[0] > 0x80
    ensures PayloadOf(PayloadValue(p)) == p
  {
    hide Value, Digits;
    var ds: Bytes := [p[0] - 0x80] + p[1..];
    DigitsValue(ds, 256);
    ValuePositive(ds);
    assert [ds[0] + 0x80] + ds[1..] == p;
  }

  /** The payload is determined by the number exactly when it is economical. */
  lemma PayloadCanonical(p: Bytes)
    ensures PayloadOf(PayloadValue(p)) == p <==> Economical(p)
  {
    PayloadRoundTrip(PayloadValue(p));
    if Economical(p) && p != [] {
      if p[0] in {0, 0x80} {
        SignByte(p);
      } else if p[0] < 0x80 {
        PositiveByte(p);
      } else {
        NegativeByte(p);
      }
    } else if p == [] {
      NoBytes();
    }
    hide PayloadOf, PayloadValue;
  }

  /** The bytes of a number: its magnitude, most significant byte first, with the
      sign in the top bit. */
  lemma PayloadMeaning(n: int)
    ensures var p := PayloadOf(n);
      if n == 0 then p == []
      else p != [] && (n < 0 <==> p[0] >= 128) && Abs(n) == Value([p[0] % 128] + p[1..], 256)
  {
    hide Value, Digits;
    ValueDigits(Abs(n), 256);
    if n != 0 {
      var ds, p := Digits(Abs(n), 256), PayloadOf(n);
      if ds[0] >= 0x80 {
        assert p[1..] == ds && p[0] % 128 == 0;
        LeadingZeros(1, ds, 256);
        assert Zeros(1) + ds == [p[0] % 128] + p[1..];
      } else {
        assert [p[0] % 128] + p[1..] == ds;
      }
    }
  }

  /** The length in front, most significant byte first. */
  lemma HeaderMeaning(k: nat)
    requires k < 0x1_0000_0000
    ensures |Header(k)| == 4 && Value(Header(k), 256) == k
  {
    HeaderRoundTrip(k);
    var d := Header(k);
    assert d == (([] + [d[0]]) + [d[1]] + [d[2]]) + [d[3]];
    ValueAppend([], d[0], 256);
    ValueAppend([d[0]], d[1], 256);
    ValueAppend([d[0], d[1]], d[2], 256);
    ValueAppend([d[0], d[1], d[2]], d[3], 256);
    assert [d[0]] + [d[1]] == [d[0], d[1]] && [d[0], d[1]] + [d[2]] == [d[0], d[1], d[2]] && [] + [d[0]] == [d[0]];
    hide Header;
  }

  lemma NoBytes()
    ensures PayloadOf(PayloadValue([])) == []
  {
  }

  lemma ValuePositive(ds: seq<nat>)
    requires Numeral(ds, 256) && ds != [] && ds[0] != 0
    ensures Value(ds, 256) > 0
  {
    ValueBound(ds, 256);
  }

  lemma HeaderRoundTrip(k: nat)
    requires k < 0x1_0000_0000
    ensures HeaderValue(Header(k)) == k
  {
    var k1 := k / 0x100;
    var k2 := k1 / 0x100;
    var k3 := k2 / 0x100;
    assert k / 0x1_0000 == k2 && k / 0x100_0000 == k3 && k3 < 0x100;
  }

  lemma StreamRoundTrip(p: Bytes)
    ensures ToBn(Header(|p|) + p) == if |p| < 0x1_0000_0000 then Some(PayloadValue(p)) else None
  {
    var d := Header(|p|) + p;
    assert d[4..] == p;
    if |p| < 0x1_0000_0000 {
      HeaderRoundTrip(|p|);
    }
  }

  // ----- little-endian vectors ------------------------------------------------------

  function GetVch(n: int): Bytes { Reverse(PayloadOf(n)) }

  function SetVch(vch: Bytes): Option<int> { ToBn(Header(|vch|) + Reverse(vch)) }

  /** A number survives the trip through a vector exactly when the length field
      can hold the size. */
  lemma VchRoundTrip(n: int)
    ensures SetVch(GetVch(n)) == Some(n) <==> |PayloadOf(n)| < 0x1_0000_0000
  {
    ReverseTwice(PayloadOf(n));
    StreamRoundTrip(PayloadOf(n));
    PayloadRoundTrip(n);
  }

  /** A vector that can be read survives the trip through a number exactly when
      its last byte could not be spared. */
  lemma VchCanonical(vch: Bytes)
    ensures SetVch(vch).Some? <==> |vch| < 0x1_0000_0000
    ensures SetVch(vch).Some? ==> (GetVch(SetVch(vch).value) == vch <==> Economical(Reverse(vch)))
  {
    StreamRoundTrip(Reverse(vch));
    PayloadCanonical(Reverse(vch));
    ReverseTwice(vch);
    ReverseTwice(PayloadOf(PayloadValue(Reverse(vch))));
  }
}
