/** Base58: byte strings as strings over an alphabet of 58 letters. Leading zero
    bytes become leading `1`s, and the rest is one number in two bases. */
module Base58 {
  import opened Common
  import opened Radix
  import opened Mpi
  import opened Chars
  import BigNum

  // ----- the alphabet ---------------------------------------------------------------

  function Alphabet(): string {
    "123456789" + "ABCDEFGH" + "JKLMN" + "PQRSTUVWXYZ" + "abcdefghijk" + "mnopqrstuvwxyz"
  }

  /** The letter for a digit, by the runs of the alphabet. */
  function Letter(d: nat): char
    requires d < 58
  {
    if d < 9 then '1' + d as char
    else if d < 17 then 'A' + (d - 9) as char
    else if d < 22 then 'J' + (d - 17) as char
    else if d < 33 then 'P' + (d - 22) as char
    else if d < 44 then 'a' + (d - 33) as char
    else 'm' + (d - 44) as char
  }

  lemma LetterAt(d: nat)
    requires d < 58
    ensures |Alphabet()| == 58 && Alphabet()[d] == Letter(d)
  {
  }

  /** The digit a letter stands for, 58 for anything else. */
  function Digit(c: char): (d: nat)
    ensures d <= 58 && (d < 58 ==> c == Letter(d))
  {
    LetterAt(0);
    var d := StrChr(Alphabet(), c);
    if d < 58 then LetterAt(d); d else d
  }

  lemma DigitOfLetter(d: nat)
    requires d < 58
    ensures Digit(Letter(d)) == d && !IsSpace(Letter(d)) && Letter(d) != '\0' && (Letter(d) == '1' <==> d == 0)
  {
    LetterAt(d);
    var i := Digit(Letter(d));
    if i < 58 { LetterAt(i); }
  }

  /** The letters are the ASCII digits and letters in their order, without 0, I, O
      and l. */
  lemma LettersOrdered(c: char, c': char)
    ensures Digit(c) < 58 <==> ('1' <= c <= '9' || 'A' <= c <= 'Z' || 'a' <= c <= 'z') && c !in "IOl"
    ensures Digit(c) < 58 && Digit(c') < 58 ==> (Digit(c) < Digit(c') <==> c < c')
  {
    hide Digit;
    var d := PlaceOf(c);
    if d < 58 { DigitOfLetter(d); }
  }

  /** The place of a letter, by the runs of the alphabet. */
  function PlaceOf(c: char): (d: nat)
    ensures d <= 58 && (d < 58 ==> Letter(d) == c)
    ensures d < 58 <==> ('1' <= c <= '9' || 'A' <= c <= 'Z' || 'a' <= c <= 'z') && c !in "IOl"
  {
    if '1' <= c <= '9' then c as nat - '1' as nat
    else if 'A' <= c <= 'H' then c as nat - 'A' as nat + 9
    else if 'J' <= c <= 'N' then c as nat - 'J' as nat + 17
    else if 'P' <= c <= 'Z' then c as nat - 'P' as nat + 22
    else if 'a' <= c <= 'k' then c as nat - 'a' as nat + 33
    else if 'm' <= c <= 'z' then c as nat - 'm' as nat + 44
    else 58
  }

  predicate Spelled(s: string) { forall c <- s :: Digit(c) < 58 }

  function Spell(ds: seq<nat>): (s: string)
    requires Numeral(ds, 58)
    ensures |s| == |ds| && forall i | 0 <= i < |s| :: ds[i] in ds && s[i] == Letter(ds[i])
  {
    seq(|ds|, i requires 0 <= i < |ds| => assert ds[i] in ds; Letter(ds[i]))
  }

  function DigitsOf(s: string): (ds: seq<nat>)
    requires Spelled(s)
    ensures |ds| == |s| && Numeral(ds, 58) && forall i | 0 <= i < |s| :: ds[i] == Digit(s[i])
  {
    seq(|s|, i requires 0 <= i < |s| => Digit(s[i]))
  }

  lemma SpellDigits(s: string)
    requires Spelled(s)
    ensures Spell(DigitsOf(s)) == s
  {
  }

  lemma DigitsSpell(ds: seq<nat>)
    requires Numeral(ds, 58)
    ensures Spelled(Spell(ds)) && DigitsOf(Spell(ds)) == ds
    ensures Stripped(Spell(ds)) && '\0' !in Spell(ds)
  {
    hide Letter, Digit, IsSpace;
    var s := Spell(ds);
    forall i | 0 <= i < |s| ensures Digit(s[i]) == ds[i] && s[i] != '\0' && !IsSpace(s[i]) {
      var d := ds[i];
      assert d in ds;
      DigitOfLetter(d);
    }
  }

  // ----- from one base to another ------------------------------------------------------

  /** How many zeros a numeral starts with. */
  function Leading(ds: seq<nat>): (k: nat)
    ensures k <= |ds| && (forall i | 0 <= i < k :: ds[i] == 0) && (k < |ds| ==> ds[k] != 0)
  {
    if ds != [] && ds[0] == 0 then Leading(ds[1..]) + 1 else 0
  }

  /** The same number in another base, behind as many zeros. */
  function Rebase(ds: seq<nat>, base: nat, target: nat): (r: seq<nat>)
    requires target >= 2
    ensures Numeral(r, target)
  {
    Zeros(Leading(ds)) + Digits(Value(ds, base), target)
  }

  lemma LeadingUnique(k: nat, ds: seq<nat>)
    requires Minimal(ds)
    ensures Leading(Zeros(k) + ds) == k
  {
    var all := Zeros(k) + ds;
    assert forall i | 0 <= i < k :: all[i] == 0;
    assert ds != [] ==> all[k] == ds[0];
  }

  /** Changing the base back gives the same numeral: the heart of base58. */
  lemma RebaseTwice(ds: seq<nat>, base: nat, target: nat)
    requires base >= 2 && target >= 2 && Numeral(ds, base)
    ensures Rebase(Rebase(ds, base, target), target, base) == ds
  {
    var k := Leading(ds);
    var rest := ds[k..];
    assert ds == Zeros(k) + rest;
    assert forall d <- rest :: d in ds;
    var n := Value(ds, base);
    LeadingZeros(k, rest, base);
    LeadingUnique(k, Digits(n, target));
    LeadingZeros(k, Digits(n, target), target);
    ValueDigits(n, target);
    DigitsValue(rest, base);
  }

  // ----- the codec --------------------------------------------------------------------

  function Encode(b: Bytes): string { Spell(Rebase(b, 256, 58)) }

  function Decode(s: string): Option<Bytes> {
    var t := Content(s);
    if Spelled(t) then Some(Rebase(DigitsOf(t), 58, 256)) else None
  }

  /** A string decodes exactly when its content is the form of some bytes, and
      then of the bytes it decodes to. */
  lemma EncodeDecode(s: string, b: Bytes)
    ensures Decode(s) == Some(b) <==> Content(s) == Encode(b)
    ensures Decode(s).Some? <==> Spelled(Content(s))
  {
    hide Content;
    var t := Content(s);
    if Spelled(t) {
      RebaseTwice(DigitsOf(t), 58, 256);
      SpellDigits(t);
    }
    DigitsSpell(Rebase(b, 256, 58));
    RebaseTwice(b, 256, 58);
  }

  /** An encoding has a `1` for each leading zero byte, and its letters spell the
      number that the bytes spell, both most significant first. */
  lemma EncodeMeaning(b: Bytes)
    ensures var s := Encode(b);
      && Spelled(s) && Value(DigitsOf(s), 58) == Value(b, 256)
      && Leading(b) <= |s| && (forall i | 0 <= i < Leading(b) :: s[i] == '1')
      && (Leading(b) < |s| ==> s[Leading(b)] != '1')
  {
    hide Letter, Digits, Value, Leading;
    var k, v := Leading(b), Value(b, 256);
    var ds := Zeros(k) + Digits(v, 58);
    DigitsSpell(ds);
    ValueDigits(v, 58);
    LeadingZeros(k, Digits(v, 58), 58);
    One();
    forall i | 0 <= i < |ds| ensures Encode(b)[i] == '1' <==> ds[i] == 0 {
      assert ds[i] in ds;
      DigitOfLetter(ds[i]);
    }
  }

  lemma Whitespace(w: string, s: string, w': string)
    requires Blank(w) && Blank(w')
    ensures Decode(w + s + w') == Decode(s)
  {
    ContentBlank(w, s, w');
  }

  lemma EncodeContent(b: Bytes)
    ensures Spelled(Encode(b)) && Content(Encode(b)) == Encode(b)
  {
    hide Spell, Rebase, Spelled;
    var s := Encode(b);
    DigitsSpell(Rebase(b, 256, 58));
    StripIs([], s, []);
    assert [] + s + [] == s;
  }

  /** Every byte string survives, whatever white space is put around its form. */
  lemma DecodeEncode(w: string, b: Bytes, w': string)
    requires Blank(w) && Blank(w')
    ensures Decode(w + Encode(b) + w') == Some(b)
  {
    hide *;
    Whitespace(w, Encode(b), w');
    EncodeContent(b);
    EncodeDecode(Encode(b), b);
  }

  // ----- encoding step by step ------------------------------------------------------------

  /** How long a byte string may be for the length field of its number to hold. */
  const LENGTH_LIMIT := 0xffff_ffff

  /** The number the encoder goes by: none, that is 0, for a longer string. */
  function Held(b: Bytes): nat { if |b| < LENGTH_LIMIT then Value(b, 256) else 0 }

  /** What the encoder writes for any byte string. */
  function Written(b: Bytes): string { Spell(Zeros(Leading(b)) + Digits(Held(b), 58)) }

  /** The encoder is right exactly for strings that are short enough or all zeros. */
  lemma EncoderExact(b: Bytes)
    ensures Written(b) == Encode(b) <==> |b| < LENGTH_LIMIT || Leading(b) == |b|
  {
    hide Digits, Value, Leading, Letter;
    LeadingValue(b);
    if |b| >= LENGTH_LIMIT {
      assert Digits(0, 58) == [] && Zeros(Leading(b)) + [] == Zeros(Leading(b));
      assert |Written(b)| == Leading(b) && |Encode(b)| == Leading(b) + |Digits(Value(b, 256), 58)|;
      assert Value(b, 256) == 0 <==> Digits(Value(b, 256), 58) == [];
    }
  }

  /** Only zeros make 0. */
  lemma LeadingValue(b: Bytes)
    ensures Leading(b) == |b| <==> Value(b, 256) == 0
  {
    var k := Leading(b);
    var rest: Bytes := b[k..];
    assert b == Zeros(k) + rest;
    LeadingZeros(k, rest, 256);
    if rest != [] { ValuePositive(rest); }
  }

  /** The zero put in front keeps the sign bit clear. */
  lemma UnsignedVch(b: Bytes)
    ensures Mpi.SetVch(Reverse(b) + [0]) == if |b| < LENGTH_LIMIT then Some(Value(b, 256)) else None
  {
    hide Header, ToBn, Value, PayloadValue, Reverse;
    ReversePadded(b);
    ZeroInFront(b);
    var p: Bytes := [0] + b;
    StreamRoundTrip(p);
  }

  lemma ReversePadded(b: Bytes)
    ensures Reverse(Reverse(b) + [0]) == [0] + b
  {
  }

  lemma ZeroInFront(b: Bytes)
    ensures PayloadValue([0] + b) == Value(b, 256)
  {
    hide Value;
    assert [0] + b == Zeros(1) + b;
    LeadingZeros(1, b, 256);
  }

  lemma SpellStep(v: nat)
    requires v > 0
    ensures Spell(Digits(v, 58)) == Spell(Digits(v / 58, 58)) + [Letter(v % 58)]
  {
    UnfoldDigits(v, 58);
  }

  lemma SpellRebased(b: Bytes, digits: string, str: string, k: nat)
    requires k == Leading(b) && digits == Reverse(Spell(Digits(Held(b), 58)))
    requires |str| == |digits| + k && str[..|digits|] == digits && forall i | |digits| <= i < |str| :: str[i] == '1'
    ensures Reverse(str) == Written(b)
  {
    hide Digits, Value, Leading, Held, Letter, Zeros;
    var ds := Digits(Held(b), 58);
    var r := Zeros(k) + ds;
    One();
    forall i | 0 <= i < |str| ensures Reverse(str)[i] == Spell(r)[i] {
      var d := r[i];
      assert d in r;
      if i >= k { assert d == ds[i - k]; }
    }
  }

  method EncodeBase58(b: Bytes) returns (str: string)
    ensures str == Written(b)
    ensures str == Encode(b) <==> |b| < LENGTH_LIMIT || Leading(b) == |b|
  {
    hide Digits, Value, Letter, Encode, Written, Spell, Reverse, Leading;
    EncoderExact(b);
    UnsignedVch(b);
    var bn := new BigNum.CBigNum();
    bn.SetVch(Reverse(b) + [0]);
    str := "";
    ghost var n := bn.value;
    while bn.value > 0
      invariant bn.value >= 0
      invariant Spell(Digits(n, 58)) == Spell(Digits(bn.value, 58)) + Reverse(str)
    {
      SpellStep(bn.value);
      var rem := bn.value % 58;
      bn.value := bn.value / 58;
      LetterAt(rem);
      str := str + [Alphabet()[rem]];
    }
    ghost var digits := str;
    var p := 0;
    while p < |b| && b[p] == 0
      invariant p <= Leading(b) && |str| == |digits| + p && str[..|digits|] == digits
      invariant forall i | |digits| <= i < |str| :: str[i] == '1'
    {
      str := str + [Alphabet()[0]];
      p := p + 1;
    }
    SpellRebased(b, digits, str, p);
    str := Reverse(str);
  }

  // ----- decoding step by step ------------------------------------------------------------

  /** Letters between blanks are the content. */
  lemma ContentIs(s: string, psz: nat, end: nat)
    requires psz <= end <= |CString(s)| && Blank(CString(s)[..psz]) && Blank(CString(s)[end..])
    requires Spelled(CString(s)[psz..end])
    ensures Content(s) == CString(s)[psz..end]
  {
    hide CString, Spelled, Stripped, Strip, Blank;
    var t := CString(s);
    var body := t[psz..end];
    SpelledStripped(body);
    assert t == t[..psz] + body + t[end..];
    StripIs(t[..psz], body, t[end..]);
  }

  lemma SpelledStripped(s: string)
    requires Spelled(s)
    ensures Stripped(s)
  {
    hide Digit, Letter;
    forall c | c in s ensures !IsSpace(c) {
      DigitOfLetter(Digit(c));
    }
  }

  /** A character that is no letter, with no blank before the content and some
      other character after it, is part of the content. */
  lemma ContentSpoilt(s: string, psz: nat, end: nat, p: nat)
    requires psz <= end <= p < |CString(s)| && Digit(CString(s)[end]) == 58
    requires !IsSpace(CString(s)[psz]) && !IsSpace(CString(s)[p])
    ensures !Spelled(Content(s))
  {
    hide Digit, Strip, IsSpace;
    var t := CString(s);
    var left, right := StripSplit(t);
    var first := |t| - |right|;
    forall i | 0 <= i < |left| ensures IsSpace(t[i]) { assert left[i] in left; }
    forall i | first <= i < |t| ensures IsSpace(t[i]) { assert right[i - first] in right; }
    assert |left| <= psz && p < first;
    assert Strip(t)[end - |left|] == t[end];
    assert t[end] in Strip(t);
  }

  /** A little-endian vector without a zero that only keeps the sign bit clear. */
  function Trimmed(vch: Bytes): Bytes {
    var k := |vch|;
    if k >= 2 && vch[k - 1] == 0 && vch[k - 2] >= 0x80 then vch[..k - 1] else vch
  }

  lemma TrimmedReverse(p: Bytes)
    ensures Reverse(Trimmed(Reverse(p))) == if |p| >= 2 && p[0] == 0 && p[1] >= 0x80 then p[1..] else p
  {
  }

  /** What is left of the vector of a number is just its digits. */
  lemma TrimmedVch(v: nat)
    ensures Reverse(Trimmed(Mpi.GetVch(v))) == Digits(v, 256)
  {
    hide Digits, Trimmed, Reverse;
    TrimmedReverse(PayloadOf(v));
    var ds := Digits(v, 256);
    if v > 0 && ds[0] >= 0x80 {
      assert ([0] + ds)[1..] == ds;
    }
  }

  lemma ValueOfLetter(s: string, c: char)
    requires Spelled(s) && Digit(c) < 58
    ensures Spelled(s + [c]) && Value(DigitsOf(s + [c]), 58) == Value(DigitsOf(s), 58) * 58 + Digit(c)
  {
    hide Digit;
    assert DigitsOf(s + [c]) == DigitsOf(s) + [Digit(c)];
    ValueAppend(DigitsOf(s), Digit(c), 58);
  }

  /** Leading `1`s are leading zeros. */
  lemma LeadingOnes(s: string, k: nat)
    requires Spelled(s) && k <= |s| && (forall i | 0 <= i < k :: s[i] == '1') && (k < |s| ==> s[k] != '1')
    ensures Leading(DigitsOf(s)) == k
  {
    hide Digit, Letter;
    var ds := DigitsOf(s);
    One();
    forall i | 0 <= i < k ensures ds[i] == 0 {}
    if k < |s| {
      assert s[k] in s;
      DigitOfLetter(Digit(s[k]));
    }
  }

  lemma NoLetters(s: string)
    requires s == []
    ensures Value(DigitsOf(s), 58) == 0
  {
  }

  lemma One()
    ensures Digit('1') == 0 && Letter(0) == '1'
  {
    DigitOfLetter(0);
  }

  /** Read the letters after `psz` into a number; what follows them may be blank. */
  method ReadLetters(s: string, t: string, psz: nat, bn: BigNum.CBigNum) returns (ok: bool, ghost end: nat)
    requires t == CString(s) && psz <= |t| && Blank(t[..psz]) && (psz < |t| ==> !IsSpace(t[psz])) && bn.value == 0
    modifies bn
    ensures ok <==> Spelled(Content(s))
    ensures psz <= end <= |t|
    ensures ok ==> Content(s) == t[psz..end] && bn.value == Value(DigitsOf(Content(s)), 58)
    ensures ok && end < |t| ==> t[end] != '1'
  {
    hide Digit, Letter, Value, IsSpace, CString, Content, DigitsOf;
    One();
    NoLetters(t[psz..psz]);
    var p := psz;
    end := psz;
    ok := true;
    while p < |t|
      invariant psz <= p == end <= |t| && Spelled(t[psz..p]) && bn.value == Value(DigitsOf(t[psz..p]), 58)
    {
      var p1 := Digit(t[p]);
      if p1 == 58 {
        while p < |t| && IsSpace(t[p])
          invariant end <= p <= |t| && Blank(t[end..p])
        {
          assert t[end..p + 1] == t[end..p] + [t[p]];
          p := p + 1;
        }
        if p < |t| {
          ContentSpoilt(s, psz, end, p);
          return false, end;
        }
        break;
      }
      ValueOfLetter(t[psz..p], t[p]);
      assert t[psz..p + 1] == t[psz..p] + [t[p]];
      bn.value := bn.value * 58 + p1;
      p, end := p + 1, end + 1;
    }
    assert t[end..] == t[end..p];
    ContentIs(s, psz, end);
  }

  method DecodeBase58(s: string) returns (ok: bool, vchRet: Bytes)
    ensures ok <==> Decode(s).Some?
    ensures vchRet == if ok then Decode(s).value else []
  {
    hide Digit, Letter, Value, Digits, IsSpace, CString, Content, DigitsOf;
    hide Reverse, Zeros, Mpi.GetVch, Leading, Trimmed;
    vchRet := [];
    var t := CString(s);
    var psz := 0;
    while psz < |t| && IsSpace(t[psz])
      invariant psz <= |t| && Blank(t[..psz])
    {
      assert t[..psz + 1] == t[..psz] + [t[psz]];
      psz := psz + 1;
    }
    var bn := new BigNum.CBigNum();
    ghost var end;
    ok, end := ReadLetters(s, t, psz, bn);
    if ok {
      var vchTmp := bn.GetVch();
      TrimmedVch(bn.value);
      vchTmp := Trimmed(vchTmp);
      var nLeadingZeros, p := 0, psz;
      while p < |t| && t[p] == '1'
        invariant p == psz + nLeadingZeros <= end && forall i | psz <= i < p :: t[i] == '1'
      {
        nLeadingZeros, p := nLeadingZeros + 1, p + 1;
      }
      LeadingOnes(Content(s), nLeadingZeros);
      vchRet := Zeros(nLeadingZeros) + Reverse(vchTmp);
    }
  }
}
