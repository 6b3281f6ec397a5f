/** Numbers as text: signed numerals in a base up to sixteen, and the reader
    for hexadecimal ones. */
module Numerals {
  import opened Radix
  import opened Chars

  function DigitChar(d: nat): char
    requires d < 16
  {
    if d < 10 then '0' + d as char else 'a' + (d - 10) as char
  }

  function Spell(ds: seq<nat>): (s: string)
    requires Numeral(ds, 16)
    ensures |s| == |ds| && forall i | 0 <= i < |s| :: ds[i] in ds && s[i] == DigitChar(ds[i])
  {
    seq(|ds|, i requires 0 <= i < |ds| => assert ds[i] in ds; DigitChar(ds[i]))
  }

  lemma Narrow(n: nat, base: nat)
    requires 2 <= base <= 16
    ensures Numeral(Digits(n, base), 16)
  {
    hide Digits;
    forall d | d in Digits(n, base) ensures d < 16 {}
  }

  function Spelled(n: nat, base: nat): string
    requires 2 <= base <= 16
  {
    Narrow(n, base);
    Spell(Digits(n, base))
  }

  lemma SpelledStep(n: nat, base: nat)
    requires 2 <= base <= 16 && n > 0
    ensures 0 <= n / base < n && n % base < base
    ensures Spelled(n, base) == Spelled(n / base, base) + [DigitChar(n % base)]
  {
    DivLess(n, base);
    UnfoldDigits(n, base);
    Narrow(n, base);
    Narrow(n / base, base);
    hide Digits, DigitChar;
  }

  lemma NothingSpelled(base: nat)
    requires 2 <= base <= 16
    ensures Spelled(0, base) == []
  {
  }

  /** The numeral of a number. */
  function Text(n: int, base: nat): string
    requires 2 <= base <= 16
  {
    (if n < 0 then "-" else "") + (if n == 0 then "0" else Spelled(Abs(n), base))
  }

  /** The numeral of a number: a minus for a negative one, and digits of the base,
      most significant first, without a zero in front. */
  lemma TextMeaning(n: int, base: nat) returns (ds: seq<nat>)
    requires 2 <= base <= 16
    ensures ds != [] && Value(ds, base) == Abs(n) && (ds[0] == 0 ==> ds == [0]) && forall d <- ds :: d < base
    ensures var sign := if n < 0 then "-" else "";
      && |Text(n, base)| == |sign| + |ds| && sign <= Text(n, base)
      && forall i | 0 <= i < |ds| :: ds[i] in ds && Text(n, base)[|sign| + i] == "0123456789abcdef"[ds[i]]
  {
    hide Digits;
    Narrow(Abs(n), base);
    ds := if n == 0 then [0] else Digits(Abs(n), base);
    ValueDigits(Abs(n), base);
    assert Value([0], base) == 0;
    forall d: nat | d < 16 ensures DigitChar(d) == "0123456789abcdef"[d] {}
    hide Value, DigitChar;
  }

  // ----- reading ------------------------------------------------------------------

  predicate IsXDigit(c: char) { '0' <= c <= '9' || 'a' <= c <= 'f' || 'A' <= c <= 'F' }

  function HexDigit(c: char): (d: nat)
    ensures d < 16
  {
    if '0' <= c <= '9' then c as nat - '0' as nat
    else if 'a' <= c <= 'f' then c as nat - 'a' as nat + 10
    else if 'A' <= c <= 'F' then c as nat - 'A' as nat + 10
    else 0
  }

  /** How many hexadecimal digits a string starts with. */
  function Run(s: string): (k: nat)
    ensures k <= |s| && (forall i | 0 <= i < k :: IsXDigit(s[i])) && (k < |s| ==> !IsXDigit(s[k]))
  {
    if s != [] && IsXDigit(s[0]) then Run(s[1..]) + 1 else 0
  }

  function HexDigits(s: string): (ds: seq<nat>)
    ensures |ds| == |s| && forall i | 0 <= i < |s| :: ds[i] == HexDigit(s[i])
  {
    seq(|s|, i requires 0 <= i < |s| => HexDigit(s[i]))
  }

  function HexValue(s: string): nat { Value(HexDigits(s[..Run(s)]), 16) }

  function AfterPrefix(s: string): string {
    if |s| >= 2 && s[0] == '0' && s[1] in "xX" then s[2..] else s
  }

  /** What the reader makes of a string: blanks, a minus, a prefix, blanks and digits. */
  function Read(s: string): int {
    var t := TrimLeft(CString(s));
    var negative := t != [] && t[0] == '-';
    var m: int := HexValue(TrimLeft(AfterPrefix(if negative then t[1..] else t)));
    if negative then -m else m
  }

  /** The digits are the sixteen of either case, and each means its place among them. */
  lemma HexDigitMeaning(c: char)
    ensures IsXDigit(c) <==> c in "0123456789abcdef" || c in "0123456789ABCDEF"
    ensures IsXDigit(c) ==> c == "0123456789abcdef"[HexDigit(c)] || c == "0123456789ABCDEF"[HexDigit(c)]
  {
    var lower, upper := "0123456789abcdef", "0123456789ABCDEF";
    assert IsXDigit(c) ==> c == lower[HexDigit(c)] || c == upper[HexDigit(c)];
  }

  lemma HexDigitOf(d: nat)
    requires d < 16
    ensures var c := DigitChar(d); IsXDigit(c) && HexDigit(c) == d && !IsSpace(c) && c !in "-xX\0"
  {
  }

  /** A string that goes on with neither a digit nor a prefix. */
  predicate Ends(rest: string) {
    rest == [] || (!IsXDigit(rest[0]) && rest[0] !in "xX")
  }

  lemma SpelledValue(ds: seq<nat>, rest: string)
    requires Numeral(ds, 16) && Ends(rest)
    ensures HexValue(Spell(ds) + rest) == Value(ds, 16)
  {
    hide DigitChar, HexDigit, IsXDigit, Value;
    var s := Spell(ds);
    forall i | 0 <= i < |ds| ensures IsXDigit((s + rest)[i]) && HexDigit(s[i]) == ds[i] {
      var d := ds[i];
      assert d in ds;
      HexDigitOf(d);
    }
    var k := Run(s + rest);
    assert rest != [] ==> (s + rest)[|s|] == rest[0];
    assert k == |s|;
    assert (s + rest)[..k] == s && HexDigits(s) == ds;
  }

  /** Digits of a numeral, as a number not zero has at least one, and zero has `0`. */
  lemma Body(n: int) returns (ds: seq<nat>)
    ensures Numeral(ds, 16) && ds != [] && Value(ds, 16) == Abs(n)
    ensures Text(n, 16) == (if n < 0 then "-" else "") + Spell(ds)
  {
    Narrow(Abs(n), 16);
    if n == 0 {
      ds := [0];
      assert Spell([0]) == "0";
      assert Value([0], 16) == 0;
    } else {
      ds := Digits(Abs(n), 16);
      ValueDigits(Abs(n), 16);
    }
  }

  /** Digits that start with no prefix and no blank. */
  lemma Unprefixed(ds: seq<nat>, rest: string)
    requires Numeral(ds, 16) && ds != [] && Ends(rest)
    ensures var s := Spell(ds) + rest; AfterPrefix(s) == s && TrimLeft(s) == s && s[0] != '-' && !IsSpace(s[0])
  {
    hide DigitChar, HexDigit, IsXDigit, Value;
    var d := ds[0];
    assert d in ds;
    HexDigitOf(d);
    var s := Spell(ds) + rest;
    if |ds| > 1 {
      var e := ds[1];
      assert e in ds;
      HexDigitOf(e);
      assert s[1] == DigitChar(e);
    } else if |s| > 1 {
      assert s[1] == rest[0];
    }
  }

  predicate Prefix(prefix: string, w: string) {
    prefix in ["0x", "0X"] || (prefix == "" && w == "")
  }

  /** Past the prefix and the blanks. */
  lemma PastPrefix(prefix: string, w: string, body: string)
    requires Prefix(prefix, w) && Blank(w) && AfterPrefix(body) == body && TrimLeft(body) == body
    requires body != [] && body[0] != '-' && !IsSpace(body[0]) && '\0' !in body
    ensures TrimLeft(AfterPrefix(prefix + w + body)) == body
    ensures var s := prefix + w + body; s != [] && s[0] != '-' && !IsSpace(s[0]) && '\0' !in s
  {
    BlankNoNul(w);
    if prefix == "" {
      assert prefix + w + body == body;
    } else {
      assert AfterPrefix(prefix + w + body) == w + body;
      TrimLeftBlank(w, body);
    }
  }

  /** Past the blanks and the sign. */
  lemma PastSign(w: string, negative: bool, s: string)
    requires Blank(w) && '\0' !in s && s != [] && s[0] != '-' && !IsSpace(s[0])
    ensures var m: int := HexValue(TrimLeft(AfterPrefix(s)));
      Read(w + (if negative then "-" else "") + s) == if negative then -m else m
  {
    hide HexValue, AfterPrefix;
    var t := (if negative then "-" else "") + s;
    BlankNoNul(w);
    assert w + (if negative then "-" else "") + s == w + t && '\0' !in w + t;
    TrimLeftBlank(w, t);
    assert t == if negative then "-" + s else s;
    assert negative ==> t[1..] == s;
  }

  /** The digits of a magnitude and what follows them. */
  lemma ReadBody(n: int, rest: string)
    requires Ends(rest) && '\0' !in rest
    ensures var body := Text(Abs(n), 16) + rest;
      && AfterPrefix(body) == body && TrimLeft(body) == body && body != [] && body[0] != '-' && !IsSpace(body[0])
      && '\0' !in body && HexValue(body) == Abs(n)
  {
    var ds := Body(Abs(n));
    hide DigitChar, HexDigit, IsXDigit, Value, Spell, HexValue, Text, AfterPrefix;
    Unprefixed(ds, rest);
    SpelledValue(ds, rest);
    NoNul(ds);
    assert "" + Spell(ds) == Spell(ds);
  }

  /** Every number is read back from its numeral, with or without the prefix,
      whatever blanks come first and whatever follows that could not belong to it. */
  lemma ReadText(w: string, n: int, prefix: string, w': string, rest: string)
    requires Blank(w) && Blank(w') && Prefix(prefix, w') && Ends(rest) && '\0' !in rest
    ensures Read(w + (if n < 0 then "-" else "") + (prefix + w' + (Text(Abs(n), 16) + rest))) == n
  {
    hide HexDigit, IsXDigit, Value, HexValue, Text, Read, AfterPrefix, TrimLeft, Prefix, Ends;
    var body := Text(Abs(n), 16) + rest;
    ReadBody(n, rest);
    PastPrefix(prefix, w', body);
    PastSign(w, n < 0, prefix + w' + body);
  }

  lemma ReadWritten(n: int)
    ensures Read(Text(n, 16)) == n
  {
    TextSplit(n);
    hide Read, Text;
    ReadText("", n, "", "", "");
  }

  lemma TextSplit(n: int)
    ensures Text(n, 16) == "" + (if n < 0 then "-" else "") + ("" + "" + (Text(Abs(n), 16) + ""))
  {
    hide Spelled;
    var t := Text(Abs(n), 16);
    assert "" + "" + (t + "") == t;
  }

  lemma BlankNoNul(w: string)
    requires Blank(w)
    ensures '\0' !in w
  {
  }

  lemma NoNul(ds: seq<nat>)
    requires Numeral(ds, 16)
    ensures '\0' !in Spell(ds)
  {
    hide DigitChar;
    forall i | 0 <= i < |ds| ensures Spell(ds)[i] != '\0' {
      var d := ds[i];
      assert d in ds;
      HexDigitOf(d);
    }
  }

  // ----- reading step by step -------------------------------------------------------

  /** One more character of a run of hexadecimal digits. */
  lemma HexStep(s: string, k: nat)
    requires k < |s| && IsXDigit(s[k])
    ensures Value(HexDigits(s[..k + 1]), 16) == Value(HexDigits(s[..k]), 16) * 16 + HexDigit(s[k])
  {
    hide Value, HexDigit, IsXDigit;
    assert HexDigits(s[..k + 1]) == HexDigits(s[..k]) + [HexDigit(s[k])];
    ValueAppend(HexDigits(s[..k]), HexDigit(s[k]), 16);
  }

  lemma HexNothing(s: string)
    ensures Value(HexDigits(s[..0]), 16) == 0
  {
  }

  lemma TrimStep(s: string, p: nat)
    requires p < |s| && IsSpace(s[p])
    ensures TrimLeft(s[p..]) == TrimLeft(s[p + 1..])
  {
    assert s[p..][1..] == s[p + 1..];
  }
}
