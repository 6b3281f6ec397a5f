/** Shifts and masks of machine words, bit by bit. */
module Bits {
  import opened Radix

  const WORD := 0x1_0000_0000

  function And(x: nat, y: nat): nat {
    if x == 0 || y == 0 then 0
    else And(x / 2, y / 2) * 2 + if x % 2 == 1 && y % 2 == 1 then 1 else 0
  }

  function Or(x: nat, y: nat): nat {
    if x == 0 then y
    else if y == 0 then x
    else Or(x / 2, y / 2) * 2 + if x % 2 == 1 || y % 2 == 1 then 1 else 0
  }

  function Shr(x: nat, n: nat): nat { x / Pow(2, n) }

  /** A left shift of 32 bits. */
  function Shl(x: nat, n: nat): nat { x * Pow(2, n) % WORD }

  lemma HalfOf(x: nat, p: nat)
    requires p > 0
    ensures x / (p * 2) == (x / 2) / p && x % (p * 2) == (x / 2) % p * 2 + x % 2
  {
    var q, r := (x / 2) / p, (x / 2) % p;
    assert x / 2 == q * p + r;
    assert q * (p * 2) == (q * p) * 2;
    DivModUnique(q, r * 2 + x % 2, p * 2);
  }

  /** Masking with ones keeps the low bits. */
  lemma {:induction false} AndLow(x: nat, k: nat)
    ensures And(x, Pow(2, k) - 1) == x % Pow(2, k)
  {
    if k > 0 {
      var p := Pow(2, k - 1);
      HalfOf(x, p);
      AndLow(x / 2, k - 1);
      assert (p * 2 - 1) / 2 == p - 1 && (p * 2 - 1) % 2 == 1;
      hide Pow;
    }
  }

  /** Masking with one bit tests it. */
  lemma {:induction false} AndBit(x: nat, k: nat)
    ensures And(x, Pow(2, k)) == x / Pow(2, k) % 2 * Pow(2, k)
  {
    if k == 0 {
      assert And(x, 1) == x % 2;
    } else {
      var p := Pow(2, k - 1);
      HalfOf(x, p);
      AndBit(x / 2, k - 1);
      assert (p * 2) / 2 == p;
      hide Pow;
    }
  }

  /** Numbers without a common bit are joined by adding them. */
  lemma {:induction false} OrSum(x: nat, y: nat)
    requires And(x, y) == 0
    ensures Or(x, y) == x + y
  {
    if x > 0 && y > 0 { OrSum(x / 2, y / 2); }
  }

  /** A number below a power of two has no bit in common with its multiples. */
  lemma {:induction false} AndApart(x: nat, q: nat, k: nat)
    requires x < Pow(2, k)
    ensures And(x, q * Pow(2, k)) == 0
  {
    if k > 0 {
      var p := Pow(2, k - 1);
      AndApart(x / 2, q, k - 1);
      assert q * (p * 2) == (q * p) * 2;
      hide Pow;
    }
  }

  lemma {:induction false} PowBytes(k: nat)
    ensures Pow(2, 8 * k) == Pow(256, k)
  {
    if k > 0 {
      PowBytes(k - 1);
      PowSplit(2, 8 * (k - 1), 8);
      assert 8 * k == 8 * (k - 1) + 8 && Pow(2, 8) == 256;
    }
  }

  lemma Powers()
    ensures Pow(2, 8) == 0x100 && Pow(2, 23) == 0x80_0000 && Pow(2, 24) == 0x100_0000
  {
    PowSplit(2, 8, 8);
    PowSplit(2, 16, 8);
    assert Pow(2, 24) == Pow(2, 23) * 2;
  }

  // ----- a size on top of a mantissa of 24 bits ---------------------------------------

  /** Taking the three fields of a word apart. */
  lemma Fields(c: nat)
    ensures Shr(c, 24) == c / 0x100_0000 && And(c, 0x7f_ffff) == c % 0x80_0000
    ensures And(c, 0x80_0000) != 0 <==> c / 0x80_0000 % 2 == 1
  {
    Powers();
    AndLow(c, 23);
    AndBit(c, 23);
    hide And, Pow;
  }

  /** Putting a size above a mantissa, and a sign into the bit between them. */
  lemma Joined(size: nat, word: nat, negative: bool)
    requires word < 0x80_0000
    ensures var c := Or(word, Shl(size, 24));
      && c == size % 256 * 0x100_0000 + word
      && Or(c, if negative then 0x80_0000 else 0) == c + if negative then 0x80_0000 else 0
  {
    Powers();
    hide And, Pow, Or;
    Truncated(size);
    AndApart(word, size % 256, 24);
    OrSum(word, size % 256 * 0x100_0000);
    var c := size % 256 * 0x100_0000 + word;
    AndBit(c, 23);
    DivModUnique(size % 256 * 2, word, 0x80_0000);
    OrSum(c, 0x80_0000);
    OrNothing(c);
  }

  lemma Truncated(size: nat)
    ensures size * 0x100_0000 % WORD == size % 256 * 0x100_0000
  {
    var q, r := size / 256, size % 256;
    DivModUnique(q, r * 0x100_0000, WORD);
  }

  lemma ShrByte(x: nat)
    ensures Shr(x, 8) == x / 0x100
  {
    Powers();
    hide Pow;
  }

  lemma OrNothing(x: nat)
    ensures Or(x, 0) == x
  {
  }
}
