/** The big number wrapper: its conversions build and take apart the byte
    stream of `Mpi` in fixed buffers. */
module BigNum {
  import opened Bits
  import opened Common
  import opened Radix
  import opened Compact
  import opened Mpi
  import Chars
  import Numerals

  // ----- 64-bit words -------------------------------------------------------------

  /** The word eight bytes make, the first one on top. */
  function Word64(e: seq<nat>): nat
    requires |e| == 8
  {
    e[0] * 0x100_0000_0000_0000 + e[1] * 0x1_0000_0000_0000 + e[2] * 0x100_0000_0000 + e[3] * 0x1_0000_0000
    + e[4] * 0x100_0000 + e[5] * 0x1_0000 + e[6] * 0x100 + e[7]
  }

  function Bytes64(n: nat): (e: Bytes)
    ensures |e| == 8
  {
    var n1 := n / 0x100;
    var n2 := n1 / 0x100;
    var n3 := n2 / 0x100;
    var n4 := n3 / 0x100;
    var n5 := n4 / 0x100;
    var n6 := n5 / 0x100;
    var n7 := n6 / 0x100;
    [n7 % 0x100, n6 % 0x100, n5 % 0x100, n4 % 0x100, n3 % 0x100, n2 % 0x100, n1 % 0x100, n % 0x100]
  }

  lemma Bytes64Word(n: nat)
    requires n < 0x1_0000_0000_0000_0000
    ensures Word64(Bytes64(n)) == n
  {
  }

  /** `(n >> 56) & 0xff` on 64 bits. */
  function TopByte(n: nat): nat { n / 0x100_0000_0000_0000 % 0x100 }

  /** `n <<= 8` on 64 bits. */
  function ShiftByte(n: nat): nat { n * 0x100 % 0x1_0000_0000_0000_0000 }

  lemma ShiftOut(c: nat, rest: nat)
    requires c < 0x100 && rest < 0x100_0000_0000_0000
    ensures var n := c * 0x100_0000_0000_0000 + rest; TopByte(n) == c && ShiftByte(n) == rest * 0x100
  {
    DivModUnique(c, rest, 0x100_0000_0000_0000);
    DivModUnique(c, rest * 0x100, 0x1_0000_0000_0000_0000);
  }

  /** Shifting a byte out at the top. */
  lemma ShiftWord(e: Bytes)
    requires |e| == 8
    ensures TopByte(Word64(e)) == e[0] < 256 && ShiftByte(Word64(e)) == Word64(e[1..] + [0])
  {
    hide TopByte, ShiftByte;
    ShiftOut(e[0], Word64([0] + e[1..]));
  }

  lemma WordValue(e: seq<nat>)
    requires |e| == 8
    ensures Value(e, 256) == Word64(e)
  {
    ValueAppend(e[..0], e[0], 256);
    forall i | 0 <= i < 8 ensures e[..i + 1] == e[..i] + [e[i]] {}
    ValueAppend(e[..1], e[1], 256);
    ValueAppend(e[..2], e[2], 256);
    ValueAppend(e[..3], e[3], 256);
    ValueAppend(e[..4], e[4], 256);
    ValueAppend(e[..5], e[5], 256);
    ValueAppend(e[..6], e[6], 256);
    ValueAppend(e[..7], e[7], 256);
    assert e[..8] == e;
    hide Value;
  }

  function Signed(negative: bool, m: nat): int {
    var n: int := m;
    if negative then -n else n
  }

  /** What is left of a word after shifting out `i` bytes. */
  function Left(word: nat, i: nat): nat
    requires i <= 8
  {
    Word64(Bytes64(word)[i..] + Zeros(i))
  }

  /** The value of the bytes shifted out so far. */
  function Taken(word: nat, i: nat): nat
    requires i <= 8
  {
    Value(Bytes64(word)[..i], 256)
  }

  lemma NextByte(word: nat, i: nat)
    requires i < 8
    ensures ShiftByte(Left(word, i)) == Left(word, i + 1) && TopByte(Left(word, i)) < 256
    ensures Taken(word, i + 1) == Taken(word, i) * 256 + TopByte(Left(word, i))
  {
    hide Word64, Value, Bytes64;
    var d := Bytes64(word);
    var e: Bytes := d[i..] + Zeros(i);
    ShiftWord(e);
    assert e[1..] + [0] == d[i + 1..] + Zeros(i + 1);
    ValueAppend(d[..i], d[i], 256);
    assert d[..i + 1] == d[..i] + [d[i]];
  }

  /** A buffer holding a payload and its length reads back as the number. */
  lemma BufferValue(negative: bool, v: nat, d: Bytes)
    requires d == Header(|Payload(negative, v)|) + Payload(negative, v) && |d| < 0x1_0000_0000
    ensures ToBn(d) == Some(Signed(negative, v))
  {
    hide *;
    SignedPayload(negative, v);
    StreamRoundTrip(Payload(negative, v));
  }

  lemma SignedPayload(negative: bool, v: nat)
    ensures PayloadValue(Payload(negative, v)) == Signed(negative, v)
  {
    hide Payload, PayloadValue, Digits;
    if v > 0 {
      PayloadRoundTrip(Signed(negative, v));
    } else {
      NothingSigned(negative);
    }
  }

  lemma NothingSigned(negative: bool)
    ensures PayloadValue(Payload(negative, 0)) == 0
  {
  }

  lemma WordStart(word: nat)
    requires word < 0x1_0000_0000_0000_0000
    ensures Left(word, 0) == word && Taken(word, 0) == 0 && Taken(word, 8) == word
  {
    var d := Bytes64(word);
    Bytes64Word(word);
    WordValue(d);
    hide Bytes64, Word64;
    assert d[0..] + Zeros(0) == d && d[..8] == d;
  }

  // ----- building a payload byte by byte ----------------------------------------------

  lemma PayloadAppend(negative: bool, v: nat, c: nat)
    requires c < 256
    ensures v > 0 ==> Payload(negative, v * 256 + c) == Payload(negative, v) + [c]
    ensures v == 0 && c > 0 ==>
      Payload(negative, c)
      == if c >= 0x80 then [if negative then 0x80 else 0, c] else [if negative then c + 0x80 else c]
    ensures v > 0 ==> v * 256 + c > 0
  {
    if v > 0 {
      DigitsAppend(v, c, 256);
    } else if c > 0 {
      DigitsAppend(0, c, 256);
      assert Digits(c, 256) == [c];
    }
  }

  // ----- 256-bit numbers, least significant byte first -------------------------------

  /** The number 32 bytes make. */
  function Number(bytes: Bytes): nat { Value(Reverse(bytes), 256) }

  /** The value of the bytes from `j` on. */
  function TopPart(bytes: Bytes, j: nat): nat
    requires j <= |bytes|
  {
    Number(bytes[j..])
  }

  lemma TopPartStep(bytes: Bytes, j: nat)
    requires 0 < j <= |bytes|
    ensures TopPart(bytes, j - 1) == TopPart(bytes, j) * 256 + bytes[j - 1] && bytes[j - 1] < 256
  {
    var r := Reverse(bytes[j..]);
    assert Reverse(bytes[j - 1..]) == r + [bytes[j - 1]];
    ValueAppend(r, bytes[j - 1], 256);
  }

  lemma TopPartEnds(bytes: Bytes)
    ensures TopPart(bytes, |bytes|) == 0 && TopPart(bytes, 0) == Number(bytes)
  {
    assert bytes[0..] == bytes;
  }

  /** The bytes after the length, without the sign bit. */
  function Masked(p: Bytes): Bytes {
    if p == [] then [] else [p[0] % 0x80] + p[1..]
  }

  lemma MaskedValue(n: int)
    ensures Value(Masked(PayloadOf(n)), 256) == Abs(n)
  {
    PayloadRoundTrip(n);
    var p := PayloadOf(n);
    if p != [] && p[0] < 0x80 { assert Masked(p) == p; }
    if p != [] && p[0] >= 0x80 { assert Masked(p) == [p[0] - 0x80] + p[1..]; }
  }

  /** `n` holds the last bytes of `b`, the last one first, and zeros after them. */
  ghost predicate HoldsTail(n: seq<nat>, b: Bytes) {
    forall i | 0 <= i < |n| :: n[i] == if i < |b| then b[|b| - 1 - i] else 0
  }

  lemma TailNumber(n: Bytes, b: Bytes)
    requires HoldsTail(n, b)
    ensures Number(n) == Value(b, 256) % Pow(256, |n|)
  {
    hide Pow;
    var k := if |n| < |b| then |n| else |b|;
    var tail: Bytes := b[|b| - k..];
    assert Reverse(n) == Zeros(|n| - k) + tail;
    LeadingZeros(|n| - k, tail, 256);
    assert Number(n) == Value(tail, 256);
    hide Value, Zeros, Reverse, Number, HoldsTail;
    if |n| <= |b| {
      ValueTail(b, k, 256);
    } else {
      assert tail == b;
      ValueBound(b, 256);
      PowMonotone(256, |b|, |n|);
      Below(Value(b, 256), Pow(256, |n|));
    }
  }

  lemma Below(v: nat, p: nat)
    requires v < p
    ensures v % p == v
  {
  }

  /** The payload for `v` stands in the buffer between the length and `p`. */
  ghost predicate Written(buffer: array<nat>, p: nat, negative: bool, leading: bool, v: nat)
    reads buffer
  {
    4 <= p <= buffer.Length && buffer[4..p] == Payload(negative, v) && (leading <==> v == 0)
  }

  lemma WrittenNothing(buffer: array<nat>, negative: bool)
    requires buffer.Length >= 4
    ensures Written(buffer, 4, negative, true, 0)
  {
  }

  lemma TopWordSmall(m: nat)
    ensures TopWord(m) < 0x100_0000
  {
    if m > 0 { TopWordRange(m); }
  }

  lemma ShlSmall(m: nat, n: nat)
    requires m * Pow(2, n) < WORD
    ensures Shl(m, n) == m * Pow(2, n)
  {
  }

  class CBigNum {
    var value: int

    constructor ()
      ensures value == 0
    {
      value := 0;
    }

    method SetCompact(nCompact: nat)
      requires nCompact < WORD
      modifies this
      ensures value == FromCompact(nCompact)
    {
      hide And, Pow;
      Fields(nCompact);
      var nSize := Shr(nCompact, 24);
      var fNegative := And(nCompact, 0x80_0000) != 0;
      var nWord := And(nCompact, 0x7f_ffff);
      if nSize <= 3 {
        PowBytes(3 - nSize);
        nWord := Shr(nWord, 8 * (3 - nSize));
        value := nWord;
      } else {
        PowBytes(nSize - 3);
        value := nWord;
        value := value * Pow(2, 8 * (nSize - 3));
      }
      if fNegative { value := -value; }
    }

    method GetCompact() returns (nCompact: nat)
      ensures nCompact == ToCompact(value) && nCompact < WORD
    {
      hide NumBytes, TopWord, And, Or, Pow, Shl, Shr;
      var nSize := NumBytes(Abs(value));
      nCompact := TopBytes(nSize);
      Fields(nCompact);
      ShrByte(nCompact);
      if And(nCompact, 0x80_0000) != 0 {
        nCompact := Shr(nCompact, 8);
        nSize := nSize + 1;
      }
      Joined(nSize, nCompact, value < 0);
      nCompact := Or(nCompact, Shl(nSize, 24));
      nCompact := Or(nCompact, if value < 0 then 0x80_0000 else 0);
    }

    /** The top three bytes of the magnitude, shifted left if it has fewer. */
    method TopBytes(nSize: nat) returns (word: nat)
      requires nSize == NumBytes(Abs(value))
      ensures word == TopWord(Abs(value)) < 0x100_0000
    {
      hide NumBytes, Pow, Shl;
      var m := Abs(value);
      TopWordSmall(m);
      if nSize <= 3 {
        PowBytes(3 - nSize);
        ShlSmall(m, 8 * (3 - nSize));
        word := Shl(m, 8 * (3 - nSize));
      } else {
        PowBytes(nSize - 3);
        word := Shr(m, 8 * (nSize - 3));
      }
    }

    /** Append one byte of a magnitude to the payload in a buffer, with the sign
        in or before the first byte that is not zero. */
    static method Emit(pch: array<nat>, p: nat, c: nat, fNegative: bool, fLeadingZeroes: bool, ghost v: nat)
      returns (q: nat, fLeading: bool)
      requires p + 2 <= pch.Length && c < 256 && Written(pch, p, fNegative, fLeadingZeroes, v)
      modifies pch
      ensures Written(pch, q, fNegative, fLeading, v * 256 + c)
      ensures q <= p + 2 && (!fLeadingZeroes ==> q == p + 1)
      ensures fLeading ==> q == p && fLeadingZeroes
    {
      PayloadAppend(fNegative, v, c);
      q, fLeading := p, fLeadingZeroes;
      ghost var before := pch[4..p];
      assert pch[..][4..p] == before;
      var b := c;
      if fLeading {
        if c == 0 { return; }
        if c >= 0x80 {
          pch[q] := if fNegative then 0x80 else 0;
          q := q + 1;
        } else if fNegative {
          b := c + 0x80;
        }
        fLeading := false;
      }
      pch[q] := b;
      q := q + 1;
      assert pch[4..p] == before && pch[..][4..q] == pch[4..q];
    }

    /** Fill in the length in front of a payload and read the number back. */
    method Adopt(pch: array<nat>, p: nat, ghost fNegative: bool, fLeadingZeroes: bool, ghost v: nat)
      requires Written(pch, p, fNegative, fLeadingZeroes, v) && pch.Length < 0x1_0000_0000
      modifies this, pch
      ensures value == Signed(fNegative, v)
    {
      var nSize := p - 4;
      pch[0] := (nSize / 0x100_0000) % 0x100;
      pch[1] := (nSize / 0x1_0000) % 0x100;
      pch[2] := (nSize / 0x100) % 0x100;
      pch[3] := nSize % 0x100;
      assert pch[4..p] == old(pch[..])[4..p];
      assert pch[..p] == Header(nSize) + Payload(fNegative, v);
      hide Header, Payload, ToBn;
      BufferValue(fNegative, v, pch[..p]);
      var bn := ToBn(pch[..p]);
      if bn.Some? { value := bn.value; }
    }

    method SetInt64(sn: int)
      requires -0x8000_0000_0000_0000 <= sn < 0x8000_0000_0000_0000
      modifies this
      ensures value == sn
    {
      var pch := new nat[14];
      var n: nat;
      var fNegative := sn < 0;
      if fNegative {
        n := -(sn + 1);
        n := n + 1;
      } else {
        n := sn;
      }
      var p, fLeadingZeroes := EmitWord(pch, n, fNegative);
      Adopt(pch, p, fNegative, fLeadingZeroes, n);
    }

    method SetUint64(n: nat)
      requires n < 0x1_0000_0000_0000_0000
      modifies this
      ensures value == n
    {
      var pch := new nat[14];
      var p, fLeadingZeroes := EmitWord(pch, n, false);
      Adopt(pch, p, false, fLeadingZeroes, n);
    }

    /** The eight bytes of a word, top first, into a buffer. */
    static method EmitWord(pch: array<nat>, word: nat, fNegative: bool) returns (p: nat, fLeadingZeroes: bool)
      requires pch.Length == 14 && word < 0x1_0000_0000_0000_0000
      modifies pch
      ensures Written(pch, p, fNegative, fLeadingZeroes, word)
    {
      hide *;
      var n := word;
      p, fLeadingZeroes := 4, true;
      WordStart(word);
      WrittenNothing(pch, fNegative);
      for i := 0 to 8
        invariant n == Left(word, i) && p <= 5 + i && (fLeadingZeroes ==> p == 4)
        invariant Written(pch, p, fNegative, fLeadingZeroes, Taken(word, i))
      {
        NextByte(word, i);
        var c := TopByte(n);
        n := ShiftByte(n);
        p, fLeadingZeroes := Emit(pch, p, c, fNegative, fLeadingZeroes, Taken(word, i));
      }
    }

    /** From 32 bytes, least significant first. */
    method SetUint256(n: Bytes)
      requires |n| == 32
      modifies this
      ensures value == Number(n)
    {
      var pch := new nat[38];
      var p, fLeadingZeroes := EmitNumber(pch, n);
      Adopt(pch, p, false, fLeadingZeroes, Number(n));
    }

    static method EmitNumber(pch: array<nat>, n: Bytes) returns (p: nat, fLeadingZeroes: bool)
      requires |n| == 32 && pch.Length == 38
      modifies pch
      ensures Written(pch, p, false, fLeadingZeroes, Number(n))
    {
      hide *;
      p, fLeadingZeroes := 4, true;
      var psrc := |n|;
      TopPartEnds(n);
      WrittenNothing(pch, false);
      while psrc != 0
        invariant 0 <= psrc <= |n| && p + psrc <= 37 && (fLeadingZeroes ==> p == 4)
        invariant Written(pch, p, false, fLeadingZeroes, TopPart(n, psrc))
      {
        TopPartStep(n, psrc);
        psrc := psrc - 1;
        var c := n[psrc];
        p, fLeadingZeroes := Emit(pch, p, c, false, fLeadingZeroes, TopPart(n, psrc + 1));
      }
    }

    /** The byte stream in a buffer of its own, without the sign bit. */
    method Unsigned() returns (vch: array<nat>)
      ensures fresh(vch) && vch.Length >= 4 && vch[4..] == Masked(PayloadOf(value))
    {
      var mpi := FromBn(value);
      var nSize := |mpi|;
      vch := new nat[nSize](i requires 0 <= i < |mpi| => mpi[i]);
      if vch.Length > 4 { vch[4] := vch[4] % 0x80; }
    }

    /** The magnitude, cut down to 32 bytes. */
    method GetUint256() returns (r: Bytes)
      ensures |r| == 32 && Number(r) == Abs(value) % Pow(256, 32)
    {
      hide Value, Pow, Masked, PayloadOf, Number;
      MaskedValue(value);
      var vch := Unsigned();
      var n := new nat[32](_ => 0);
      var i, j := 0, vch.Length - 1;
      ghost var b := vch[4..];
      assert |b| == vch.Length - 4;
      while i < n.Length && j >= 4
        invariant 0 <= i <= n.Length && i <= |b| && j == |b| + 3 - i && vch[4..] == b
        invariant forall k | 0 <= k < i :: n[k] == b[|b| - 1 - k]
        invariant forall k | i <= k < n.Length :: n[k] == 0
      {
        n[i] := vch[j];
        i, j := i + 1, j - 1;
      }
      r := n[..];
      assert i < |r| ==> i == |b|;
      TailNumber(r, b);
    }

    /** From a little-endian vector; a vector too long for the length field
        leaves the number alone. */
    method SetVch(vch: Bytes)
      modifies this
      ensures value == var n := Mpi.SetVch(vch); if n.Some? then n.value else old(value)
    {
      var vch2 := new nat[|vch| + 4];
      var nSize := |vch|;
      vch2[0] := (nSize / 0x100_0000) % 0x100;
      vch2[1] := (nSize / 0x1_0000) % 0x100;
      vch2[2] := (nSize / 0x100) % 0x100;
      vch2[3] := nSize % 0x100;
      assert vch2[..4] == Header(nSize);
      hide Header, ToBn;
      for i := 0 to |vch|
        invariant value == old(value)
        invariant vch2[..4] == Header(nSize) && vch2[4..4 + i] == Reverse(vch)[..i]
      {
        vch2[4 + i] := vch[|vch| - 1 - i];
      }
      assert vch2[4..] == vch2[4..4 + |vch|] == Reverse(vch)[..|vch|] == Reverse(vch);
      assert vch2[..] == vch2[..4] + vch2[4..];
      var n := ToBn(vch2[..]);
      if n.Some? { value := n.value; }
    }

    method GetVch() returns (vch: Bytes)
      ensures vch == Mpi.GetVch(value)
    {
      var mpi := FromBn(value);
      var nSize := |mpi|;
      if nSize <= 4 {
        vch := [];
      } else {
        vch := mpi[4..];
        vch := Reverse(vch);
      }
    }

    /** From a hexadecimal numeral. */
    method SetHex(str: string)
      modifies this
      ensures value == Numerals.Read(str)
    {
      hide Chars.CString, Numerals.HexValue, Chars.TrimLeft;
      var t := Chars.CString(str);
      var psz := SkipSpace(t, 0);
      assert t[0..] == t;
      var fNegative := psz < |t| && t[psz] == '-';
      if fNegative { psz := psz + 1; }
      ghost var s := t[psz..];
      if psz + 1 < |t| && t[psz] == '0' && t[psz + 1] in "xX" { psz := psz + 2; }
      assert t[psz..] == Numerals.AfterPrefix(s);
      psz := SkipSpace(t, psz);
      AddHex(t, psz);
      if fNegative { value := 0 - value; }
    }

    method AddHex(t: string, q: nat)
      requires q <= |t|
      modifies this
      ensures value == Numerals.HexValue(t[q..])
    {
      hide Numerals.IsXDigit, Numerals.HexDigit, Value, Numerals.HexDigits;
      ghost var digits := t[q..];
      Numerals.HexNothing(digits);
      value := 0;
      var psz := q;
      while psz < |t| && Numerals.IsXDigit(t[psz])
        invariant q <= psz <= |t| && forall i | 0 <= i < psz - q :: Numerals.IsXDigit(digits[i])
        invariant value == Value(Numerals.HexDigits(digits[..psz - q]), 16)
      {
        Numerals.HexStep(digits, psz - q);
        value := value * 16;
        var n := Numerals.HexDigit(t[psz]);
        psz := psz + 1;
        value := value + n;
      }
      assert psz - q == Numerals.Run(digits);
    }

    static method SkipSpace(t: string, p: nat) returns (q: nat)
      requires p <= |t|
      ensures p <= q <= |t| && t[q..] == Chars.TrimLeft(t[p..])
    {
      hide Chars.IsSpace;
      q := p;
      while q < |t| && Chars.IsSpace(t[q])
        invariant p <= q <= |t| && Chars.TrimLeft(t[q..]) == Chars.TrimLeft(t[p..])
      {
        Numerals.TrimStep(t, q);
        q := q + 1;
      }
    }

    /** The numeral in a base, by repeated division. */
    method ToString(nBase: nat) returns (str: string)
      requires 2 <= nBase <= 16
      ensures str == Numerals.Text(value, nBase)
    {
      hide Numerals.Spelled, Numerals.DigitChar, Reverse;
      str := "";
      var bn: nat := Abs(value);
      if bn == 0 { return "0"; }
      ghost var whole := Numerals.Spelled(bn, nBase);
      while bn > 0
        invariant bn >= 0 && whole == Numerals.Spelled(bn, nBase) + Reverse(str)
      {
        Numerals.SpelledStep(bn, nBase);
        var dv, rem := bn / nBase, bn % nBase;
        bn := dv;
        ReverseAppend(str, Numerals.DigitChar(rem));
        str := str + [Numerals.DigitChar(rem)];
      }
      Numerals.NothingSpelled(nBase);
      if value < 0 {
        ReverseAppend(str, '-');
        str := str + "-";
      }
      str := Reverse(str);
    }
  }
}
