/** The compact 32-bit form of a big number: a sign, a size in bytes and a
    mantissa of 23 bits. */
module Compact {
  import opened Radix

  /** 256 to the power k. */
  function P(k: nat): (p: nat)
    ensures p > 0
  {
    Pow(256, k)
  }

  /** How many bytes a magnitude takes. */
  function NumBytes(m: nat): nat { |Digits(m, 256)| }

  /** The top three bytes of a magnitude. */
  function TopWord(m: nat): nat {
    var k := NumBytes(m);
    if k <= 3 then m * P(3 - k) else m / P(k - 3)
  }

  /** Size and mantissa: the top three bytes, or the top two where the third
      would reach into the sign bit. */
  function Normal(m: nat): (nat, nat) {
    if TopWord(m) >= 0x80_0000 then (NumBytes(m) + 1, TopWord(m) / 256) else (NumBytes(m), TopWord(m))
  }

  /** The encoder, with the size truncated to its eight bits by the 32-bit shift. */
  function ToCompact(n: int): nat {
    var (size, word) := Normal(Abs(n));
    (size % 256) * 0x100_0000 + (if n < 0 then 0x80_0000 else 0) + word
  }

  function Magnitude(size: nat, word: nat): nat {
    if size <= 3 then word / P(3 - size) else word * P(size - 3)
  }

  /** The decoder. */
  function FromCompact(c: nat): int {
    var size, negative, word := c / 0x100_0000, (c / 0x80_0000) % 2 == 1, c % 0x80_0000;
    var m: int := Magnitude(size, word);
    if negative then -m else m
  }

  /** 2^2039, the first magnitude whose size does not fit eight bits. */
  function Limit(): nat { 128 * P(254) }

  // ----- the normal form ----------------------------------------------------------

  /** `word` is what is left of `m` when it is scaled down by `size` bytes from 2^24. */
  ghost predicate IsNormal(m: nat, size: nat, word: nat) {
    && 0x8000 <= word < 0x80_0000
    && word * P(size) <= m * 0x100_0000 < (word + 1) * P(size)
  }

  lemma BytesBound(m: nat)
    requires m > 0
    ensures NumBytes(m) > 0 && P(NumBytes(m) - 1) <= m < P(NumBytes(m))
  {
    ValueDigits(m, 256);
    ValueBound(Digits(m, 256), 256);
  }

  lemma PowThree(k: nat)
    ensures P(k + 3) == P(k) * 0x100_0000
  {
    assert P(k + 1) == P(k) * 256 && P(k + 2) == P(k + 1) * 256 && P(k + 3) == P(k + 2) * 256;
  }

  /** The top three bytes approximate the number from below. */
  lemma TopBytes(m: nat)
    requires m > 0
    ensures TopWord(m) * P(NumBytes(m)) <= m * 0x100_0000 < (TopWord(m) + 1) * P(NumBytes(m))
  {
    var k := NumBytes(m);
    hide NumBytes, Pow, P;
    BytesBound(m);
    PowSmall();
    if k <= 3 {
      SplitSmall(m, k);
      MulMonotone(0, 1, P(k));
      assert (TopWord(m) + 1) * P(k) == TopWord(m) * P(k) + P(k);
    } else {
      PowThree(k - 3);
      ScaleDown(m, P(k - 3));
    }
  }

  lemma SplitSmall(m: nat, k: nat)
    requires k <= 3
    ensures m * P(3 - k) * P(k) == m * 0x100_0000
  {
    PowSmall();
    hide P;
    match k {
      case 0 =>
      case 1 =>
      case 2 =>
      case 3 =>
    }
  }

  lemma ScaleDown(m: nat, p: nat)
    requires p > 0
    ensures var w := m / p; w * (p * 0x100_0000) <= m * 0x100_0000 < (w + 1) * (p * 0x100_0000)
  {
    var w := m / p;
    assert m == w * p + m % p;
    assert w * p <= m < w * p + p;
    assert w * (p * 0x100_0000) == (w * p) * 0x100_0000;
    assert (w + 1) * (p * 0x100_0000) == (w * p + p) * 0x100_0000;
  }

  lemma PowSmall()
    ensures P(0) == 1 && P(1) == 256 && P(2) == 0x1_0000 && P(3) == 0x100_0000
  {
    assert P(1) == P(0) * 256 && P(2) == P(1) * 256 && P(3) == P(2) * 256;
  }

  lemma PowNext(k: nat)
    ensures P(k + 1) == P(k) * 256
  {
  }

  lemma {:induction false} ScaleMonotone(j: nat, k: nat)
    requires j <= k
    ensures P(j) <= P(k)
  {
    if j < k {
      ScaleMonotone(j, k - 1);
      PowNext(k - 1);
      MulMonotone(1, 256, P(k - 1));
    }
  }

  /** Cancelling a positive factor. */
  lemma Cancel(a: int, b: int, k: nat)
    requires a * k < b * k
    ensures a < b
  {
    if b <= a { MulMonotone(b, a, k); }
  }

  /** Dropping the last byte of the mantissa moves the scale by one byte. */
  lemma Rescale(w: nat, p: nat, x: nat)
    requires w * p <= x < (w + 1) * p
    ensures (w / 256) * (256 * p) <= x < (w / 256 + 1) * (256 * p)
  {
    var v := w / 256;
    MulAssoc(v, 256, p);
    MulAssoc(v + 1, 256, p);
    MulMonotone(v * 256, w, p);
    MulMonotone(w + 1, (v + 1) * 256, p);
  }

  /** The encoder's size and mantissa are a normal form. */
  lemma NormalIs(m: nat)
    requires m > 0
    ensures var (size, word) := Normal(m); size > 0 && IsNormal(m, size, word)
  {
    var k, w := NumBytes(m), TopWord(m);
    hide NumBytes, TopWord, P;
    BytesBound(m);
    TopBytes(m);
    TopWordRange(m);
    if w >= 0x80_0000 {
      PowNext(k);
      Rescale(w, P(k), m * 0x100_0000);
    }
  }

  lemma TopWordRange(m: nat)
    requires m > 0
    ensures 0x1_0000 <= TopWord(m) < 0x100_0000
  {
    var k, w := NumBytes(m), TopWord(m);
    BytesBound(m);
    TopBytes(m);
    hide NumBytes, TopWord, P;
    PowNext(k - 1);
    assert 0x1_0000 * P(k) == P(k - 1) * 0x100_0000;
    MulMonotone(P(k - 1), m, 0x100_0000);
    Cancel(0x1_0000, w + 1, P(k));
    MulMonotone(m + 1, P(k), 0x100_0000);
    Cancel(w, 0x100_0000, P(k));
  }

  /** A larger number has no smaller size. */
  lemma NormalSizes(m: nat, s: nat, w: nat, m': nat, s': nat, w': nat)
    requires IsNormal(m, s, w) && IsNormal(m', s', w') && m <= m'
    ensures s <= s'
  {
    if s' < s {
      hide P;
      ScaleMonotone(s' + 1, s);
      PowNext(s');
      MulMonotone(m, m', 0x100_0000);
      MulMonotone(w' + 1, 0x80_0000, P(s'));
      assert 0x8000 * P(s' + 1) == 0x80_0000 * P(s');
      MulMonotone(P(s' + 1), P(s), 0x8000);
      MulMonotone(0x8000, w, P(s));
    }
  }

  /** Of two numbers of one size the larger has no smaller mantissa. */
  lemma NormalWords(m: nat, w: nat, m': nat, w': nat, s: nat)
    requires IsNormal(m, s, w) && IsNormal(m', s, w') && m <= m'
    ensures w <= w'
  {
    hide P;
    MulMonotone(m, m', 0x100_0000);
    Cancel(w, w' + 1, P(s));
  }

  lemma NormalUnique(m: nat, s: nat, w: nat, s': nat, w': nat)
    requires IsNormal(m, s, w) && IsNormal(m, s', w')
    ensures s == s' && w == w'
  {
    NormalSizes(m, s, w, m, s', w');
    NormalSizes(m, s', w', m, s, w);
    NormalWords(m, w, m, w', s);
    NormalWords(m, w', m, w, s);
  }

  /** Sizes fit eight bits exactly below the limit. */
  lemma SizeFits(m: nat, s: nat, w: nat)
    requires IsNormal(m, s, w)
    ensures s <= 255 <==> m < Limit()
  {
    hide P;
    PowNext(254);
    PowNext(255);
    assert 0x80_0000 * P(255) == Limit() * 0x100_0000;
    assert 0x8000 * P(256) == Limit() * 0x100_0000;
    if s <= 255 {
      ScaleMonotone(s, 255);
      MulMonotone(w + 1, 0x80_0000, P(s));
      MulMonotone(P(s), P(255), 0x80_0000);
      Cancel(m, Limit(), 0x100_0000);
    } else {
      ScaleMonotone(256, s);
      MulMonotone(P(256), P(s), 0x8000);
      MulMonotone(0x8000, w, P(s));
    }
  }

  lemma NormalOf(m: nat) returns (s: nat, w: nat)
    requires m > 0
    ensures IsNormal(m, s, w) && (s <= 255 <==> m < Limit())
  {
    NormalIs(m);
    s, w := Normal(m).0, Normal(m).1;
    SizeFits(m, s, w);
  }

  // ----- decoding ------------------------------------------------------------------

  /** What decoding a normal form gives: the number itself while it has at most
      three bytes, and its top part beyond. */
  lemma MagnitudeOf(m: nat, s: nat, w: nat)
    requires IsNormal(m, s, w)
    ensures var r := Magnitude(s, w);
      && r <= m && (m - r) * 0x8000 < r
      && w * P(s) == r * 0x100_0000
  {
    hide P;
    if s <= 3 {
      SplitSmall(m, s);
      ScaledExactly(m, P(3 - s), P(s), w);
    } else {
      PowThree(s - 3);
      ScaledDown(m, P(s - 3), w);
      MulMonotone(0x8000, w, P(s - 3));
    }
  }

  lemma ScaledExactly(m: nat, k: nat, p: nat, w: nat)
    requires k > 0 && m * k * p == m * 0x100_0000 && w * p <= m * 0x100_0000 < (w + 1) * p
    ensures w == m * k && w / k == m && w * p == m * 0x100_0000
  {
    Cancel(w, m * k + 1, p);
    Cancel(m * k, w + 1, p);
    DivModUnique(m, 0, k);
  }

  lemma ScaledDown(m: nat, q: nat, w: nat)
    requires w * (q * 0x100_0000) <= m * 0x100_0000 < (w + 1) * (q * 0x100_0000)
    ensures w * q <= m < w * q + q && w * (q * 0x100_0000) == (w * q) * 0x100_0000
  {
    MulAssoc(w, q, 0x100_0000);
    MulAssoc(w + 1, q, 0x100_0000);
    Cancel(w * q, m + 1, 0x100_0000);
    Cancel(m, (w + 1) * q, 0x100_0000);
    assert (w + 1) * q == w * q + q;
  }

  lemma FieldsOf(n: int, s: nat, w: nat)
    requires w < 0x80_0000
    ensures var c := (s % 256) * 0x100_0000 + (if n < 0 then 0x80_0000 else 0) + w;
      && c / 0x100_0000 == s % 256 && ((c / 0x80_0000) % 2 == 1 <==> n < 0) && c % 0x80_0000 == w
      && c < 0x1_0000_0000
  {
  }

  /** The promise of the pair: sign kept, magnitude cut down by less than one
      part in 2^15. It holds exactly for the numbers below 2^2039. */
  ghost predicate Close(n: int, r: int) {
    && (n < 0 <==> r < 0)
    && Abs(r) <= Abs(n) && (Abs(n) - Abs(r)) * 0x8000 < Abs(r)
  }

  lemma RoundTrip(n: int)
    requires n != 0
    ensures Close(n, FromCompact(ToCompact(n))) <==> Abs(n) < Limit()
    ensures ToCompact(n) < 0x1_0000_0000
  {
    hide Normal, IsNormal, Limit, Magnitude, ToCompact, FromCompact;
    var m := Abs(n);
    var s, w := NormalOf(m);
    Encoded(n, s, w);
    if s <= 255 {
      MagnitudeOf(m, s, w);
    } else {
      Truncated(m, s, w);
    }
  }

  /** A size that does not fit leaves less than half of the number. */
  lemma Truncated(m: nat, s: nat, w: nat)
    requires IsNormal(m, s, w) && s > 255
    ensures 2 * Magnitude(s % 256, w) <= m
  {
    hide P, Magnitude;
    var t := s % 256;
    MagnitudeAtMost(t, w);
    ScaleMonotone(t + 1, s);
    PowNext(t);
    Quarter(Magnitude(t, w), w, P(t), P(s), m);
  }

  lemma Quarter(r: nat, w: nat, p: nat, q: nat, m: nat)
    requires r * 0x100_0000 <= w * p && p * 256 <= q && w * q <= m * 0x100_0000
    ensures 2 * r <= m
  {
    MulMonotone(p * 256, q, w);
    MulAssoc(w, p, 256);
  }

  lemma MagnitudeAtMost(s: nat, w: nat)
    ensures Magnitude(s, w) * 0x100_0000 <= w * P(s)
  {
    if s <= 3 {
      var k := P(3 - s);
      var r := w / k;
      SplitSmall(r, s);
      assert r * k <= w;
      MulMonotone(r * k, w, P(s));
    } else {
      PowThree(s - 3);
    }
  }

  /** The encoder's fields, and what the decoder makes of them. */
  lemma Encoded(n: int, s: nat, w: nat)
    requires n != 0 && IsNormal(Abs(n), s, w)
    ensures ToCompact(n) == (s % 256) * 0x100_0000 + (if n < 0 then 0x80_0000 else 0) + w < 0x1_0000_0000
    ensures FromCompact(ToCompact(n)) == if n < 0 then -(Magnitude(s % 256, w) as int) else Magnitude(s % 256, w)
  {
    NormalIs(Abs(n));
    var (s', w') := Normal(Abs(n));
    NormalUnique(Abs(n), s, w, s', w');
    FieldsOf(n, s, w);
    hide Normal, IsNormal, Magnitude;
  }

  // ----- order ---------------------------------------------------------------------

  /** The compact form of non-negative numbers keeps their order. */
  lemma Monotone(a: nat, b: nat)
    requires a <= b < Limit()
    ensures ToCompact(a) <= ToCompact(b)
    ensures FromCompact(ToCompact(a)) <= FromCompact(ToCompact(b))
  {
    hide Normal, Limit, Magnitude, IsNormal, FromCompact, ToCompact;
    ZeroCompact();
    if a > 0 {
      var s, w := NormalOf(a);
      var s', w' := NormalOf(b);
      Encoded(a, s, w);
      Encoded(b, s', w');
      NormalSizes(a, s, w, b, s', w');
      if s == s' { NormalWords(a, w, b, w', s); }
      MantissaFits(a, s, w);
      DecodedMonotone(a, s, w, b, s', w');
    } else if b > 0 {
      var s', w' := NormalOf(b);
      Encoded(b, s', w');
    }
  }

  lemma MantissaFits(m: nat, s: nat, w: nat)
    requires IsNormal(m, s, w)
    ensures w < 0x80_0000
  {
  }

  lemma ZeroCompact()
    ensures ToCompact(0) == 0 && FromCompact(0) == 0
  {
  }

  lemma DecodedMonotone(a: nat, s: nat, w: nat, b: nat, s': nat, w': nat)
    requires IsNormal(a, s, w) && IsNormal(b, s', w') && a <= b
    ensures Magnitude(s, w) <= Magnitude(s', w')
  {
    MagnitudeOf(a, s, w);
    MagnitudeOf(b, s', w');
    NormalSizes(a, s, w, b, s', w');
    hide P, Magnitude;
    var r, r' := Magnitude(s, w), Magnitude(s', w');
    if s == s' {
      NormalWords(a, w, b, w', s);
      MulMonotone(w, w', P(s));
    } else {
      ScaleMonotone(s + 1, s');
      PowNext(s);
      MulMonotone(w + 1, 0x80_0000, P(s));
      MulMonotone(P(s + 1), P(s'), 0x8000);
      MulMonotone(0x8000, w', P(s'));
    }
    Cancel(r, r' + 1, 0x100_0000);
  }

  // ----- codes --------------------------------------------------------------------

  function SizeOf(c: nat): nat { c / 0x100_0000 }

  function WordOf(c: nat): nat { c % 0x80_0000 }

  function NegativeOf(c: nat): bool { c / 0x80_0000 % 2 == 1 }

  /** The codes an encoder can mean: 0, or a mantissa with a byte in its top two
      and, below three bytes, nothing in the bytes that are shifted out. */
  predicate Proper(c: nat) {
    c == 0 || (WordOf(c) >= 0x8000 && (SizeOf(c) < 3 ==> WordOf(c) % P(3 - SizeOf(c)) == 0))
  }

  lemma CodeParts(c: nat)
    requires c < 0x1_0000_0000
    ensures SizeOf(c) <= 255 && WordOf(c) < 0x80_0000
    ensures c == SizeOf(c) * 0x100_0000 + (if NegativeOf(c) then 0x80_0000 else 0) + WordOf(c)
  {
  }

  lemma PartsUnique(s: nat, negative: bool, w: nat, s': nat, negative': bool, w': nat)
    requires w < 0x80_0000 && w' < 0x80_0000
    ensures s * 0x100_0000 + (if negative then 0x80_0000 else 0) + w
         == s' * 0x100_0000 + (if negative' then 0x80_0000 else 0) + w'
      <==> s == s' && negative == negative' && w == w'
  {
  }

  /** A decoded magnitude scales back to its mantissa exactly when nothing of that
      was shifted out. */
  lemma MagnitudeScaled(s: nat, w: nat)
    ensures Magnitude(s, w) * 0x100_0000 <= w * P(s)
    ensures Magnitude(s, w) * 0x100_0000 == w * P(s) <==> (s < 3 ==> w % P(3 - s) == 0)
  {
    MagnitudeAtMost(s, w);
    if s <= 3 {
      var k := P(3 - s);
      var r := w / k;
      SplitSmall(r, s);
      assert w == r * k + w % k;
      assert w * P(s) == (r * k) * P(s) + (w % k) * P(s);
      if w % k > 0 { MulMonotone(1, w % k, P(s)); }
      PowSmall();
      hide P, Magnitude;
    } else {
      PowThree(s - 3);
      MulAssoc(w, P(s - 3), 0x100_0000);
    }
  }

  /** What a word stands for: 23 bits of mantissa, scaled by 256 to the power of its
      top byte less three and cut to a whole number, with the sign in the bit between. */
  lemma CodeMeaning(c: nat)
    requires c < 0x1_0000_0000
    ensures var r, scaled := FromCompact(c), c % 0x80_0000 * Pow(256, c / 0x100_0000);
      && Abs(r) * 0x100_0000 <= scaled < (Abs(r) + 1) * 0x100_0000
      && (r < 0 <==> c / 0x80_0000 % 2 == 1 && r != 0)
  {
    DecodedSign(c);
    CutDown(SizeOf(c), WordOf(c));
    hide Pow, FromCompact, Magnitude;
  }

  lemma CutDown(s: nat, w: nat)
    ensures var r := Magnitude(s, w); r * 0x100_0000 <= w * P(s) < (r + 1) * 0x100_0000
  {
    MagnitudeAtMost(s, w);
    if s <= 3 {
      var k := P(3 - s);
      var r := w / k;
      SplitSmall(r + 1, s);
      assert w < (r + 1) * k;
      MulMonotone(w + 1, (r + 1) * k, P(s));
      hide P;
    } else {
      PowThree(s - 3);
      MulAssoc(w, P(s - 3), 0x100_0000);
    }
  }

  /** A code's magnitude and mantissa are a normal form exactly when it is proper. */
  lemma ProperNormal(c: nat)
    requires 0 < c < 0x1_0000_0000
    ensures var r := Magnitude(SizeOf(c), WordOf(c)); IsNormal(r, SizeOf(c), WordOf(c)) <==> Proper(c)
  {
    CodeParts(c);
    var s, w := SizeOf(c), WordOf(c);
    MagnitudeScaled(s, w);
    hide P, Magnitude;
    MulMonotone(1, P(s), 1);
  }

  lemma DecodedMagnitude(c: nat)
    requires c < 0x1_0000_0000
    ensures var r := Magnitude(SizeOf(c), WordOf(c));
      FromCompact(c) == if NegativeOf(c) then -(r as int) else r
  {
    hide Magnitude;
  }

  /** The size of a decoded magnitude fits eight bits. */
  lemma DecodedFits(c: nat)
    requires c < 0x1_0000_0000
    ensures Magnitude(SizeOf(c), WordOf(c)) < Limit()
  {
    hide P, Magnitude, SizeOf, WordOf, Limit;
    CodeParts(c);
    var s, w := SizeOf(c), WordOf(c);
    MagnitudeAtMost(s, w);
    ScaleMonotone(s, 255);
    LimitScaled();
    BelowLimit(Magnitude(s, w), w, P(s), P(255), Limit());
  }

  lemma LimitScaled()
    ensures 0x80_0000 * P(255) == Limit() * 0x100_0000
  {
    hide P;
    PowNext(254);
  }

  lemma BelowLimit(r: nat, w: nat, p: nat, q: nat, limit: nat)
    requires r * 0x100_0000 <= w * p && w < 0x80_0000 && p <= q && 0 < q && 0x80_0000 * q == limit * 0x100_0000
    ensures r < limit
  {
    MulMonotone(p, q, w);
    MulMonotone(w + 1, 0x80_0000, q);
  }

  lemma DecodedSign(c: nat)
    requires c < 0x1_0000_0000
    ensures Abs(FromCompact(c)) == Magnitude(SizeOf(c), WordOf(c))
    ensures FromCompact(c) != 0 ==> (FromCompact(c) < 0 <==> NegativeOf(c))
  {
    DecodedMagnitude(c);
    hide FromCompact, Magnitude;
  }

  /** A decoded number is encoded as the code exactly when its normal form is the
      code's size and mantissa. */
  lemma SameCode(c: nat, s: nat, w: nat)
    requires c < 0x1_0000_0000 && FromCompact(c) != 0 && IsNormal(Abs(FromCompact(c)), s, w) && s <= 255
    ensures ToCompact(FromCompact(c)) == c <==> s == SizeOf(c) && w == WordOf(c)
  {
    hide Magnitude, FromCompact, ToCompact, IsNormal, SizeOf, WordOf, NegativeOf;
    var n := FromCompact(c);
    Encoded(n, s, w);
    MantissaFits(Abs(n), s, w);
    DecodedSign(c);
    CodeParts(c);
    PartsUnique(s, n < 0, w, SizeOf(c), NegativeOf(c), WordOf(c));
  }

  /** Exactly the proper codes come back when they are decoded and encoded again. */
  lemma CodeReturns(c: nat)
    requires c < 0x1_0000_0000
    ensures ToCompact(FromCompact(c)) == c <==> Proper(c)
  {
    hide Magnitude, FromCompact, ToCompact, IsNormal, SizeOf, WordOf, Limit, Proper, Normal;
    ZeroCompact();
    ZeroProper();
    DecodedSign(c);
    if c > 0 {
      ProperNormal(c);
      DecodedFits(c);
      if FromCompact(c) == 0 {
        NothingNormal(SizeOf(c), WordOf(c));
      } else {
        var s, w := NormalOf(Abs(FromCompact(c)));
        SameCode(c, s, w);
        if Proper(c) { NormalUnique(Abs(FromCompact(c)), s, w, SizeOf(c), WordOf(c)); }
      }
    }
  }

  lemma ZeroProper()
    ensures Proper(0)
  {
  }

  lemma NothingNormal(s: nat, w: nat)
    ensures !IsNormal(0, s, w)
  {
    MulMonotone(1, P(s), w);
  }

  /** Encoding what was decoded from an encoding gives the same encoding exactly
      when that is proper, as it is for every number below the limit. */
  lemma Canonical(n: int)
    ensures ToCompact(n) < 0x1_0000_0000
    ensures ToCompact(FromCompact(ToCompact(n))) == ToCompact(n) <==> Proper(ToCompact(n))
    ensures Abs(n) < Limit() ==> ToCompact(FromCompact(ToCompact(n))) == ToCompact(n)
  {
    hide Normal, Limit, Magnitude, FromCompact, ToCompact, Proper;
    ZeroCompact();
    if n != 0 {
      RoundTrip(n);
      if Abs(n) < Limit() { BelowCanonical(n); }
    }
    CodeReturns(ToCompact(n));
  }

  lemma BelowCanonical(n: int)
    requires n != 0 && Abs(n) < Limit()
    ensures ToCompact(FromCompact(ToCompact(n))) == ToCompact(n)
  {
    hide Normal, Limit, Magnitude, FromCompact, ToCompact;
    var s, w := NormalOf(Abs(n));
    Encoded(n, s, w);
    MagnitudeOf(Abs(n), s, w);
    var r := FromCompact(ToCompact(n));
    assert IsNormal(Abs(r), s, w);
    Encoded(r, s, w);
  }

  /** A number whose size is a multiple of 256 is never encoded properly. */
  lemma WrappedSize(n: int, s: nat, w: nat)
    requires n != 0 && IsNormal(Abs(n), s, w) && s % 256 == 0
    ensures ToCompact(FromCompact(ToCompact(n))) != ToCompact(n)
  {
    Encoded(n, s, w);
    MantissaFits(Abs(n), s, w);
    var c := ToCompact(n);
    CodeParts(c);
    PartsUnique(s % 256, n < 0, w, SizeOf(c), NegativeOf(c), WordOf(c));
    CodeReturns(c);
    PowSmall();
    hide ToCompact, FromCompact, SizeOf, WordOf, NegativeOf, P;
  }
}
