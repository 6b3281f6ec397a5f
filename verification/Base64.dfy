/** Base64: three bytes as four letters, with padding (section 4 of RFC 4648). */
module Base64 {
  import opened Chars
  import opened Mpi
  import opened Radix

  function Alphabet(): string {
    "ABCDEFGHIJKLM" + "NOPQRSTUVWXYZ" + "abcdefghijklm" + "nopqrstuvwxyz" + "0123456789+/"
  }

  /** The letter for a sextet, by the runs of the alphabet. */
  function Letter(d: nat): char
    requires d < 64
  {
    if d < 26 then 'A' + d as char
    else if d < 52 then 'a' + (d - 26) as char
    else if d < 62 then '0' + (d - 52) as char
    else if d == 62 then '+' else '/'
  }

  predicate IsAlnum(c: char) { '0' <= c <= '9' || 'A' <= c <= 'Z' || 'a' <= c <= 'z' }

  predicate IsBase64(c: char) { IsAlnum(c) || c == '+' || c == '/' }

  lemma LetterAt(d: nat)
    requires d < 64
    ensures |Alphabet()| == 64 && Alphabet()[d] == Letter(d)
  {
  }

  /** The position of a character as one byte: 255 stands for not found. */
  function Find(c: char): (d: nat)
    ensures d < 256
  {
    var d := StrChr(Alphabet(), c);
    if d == |Alphabet()| then 255 else LetterAt(0); d
  }

  lemma FindLetter(d: nat)
    requires d < 64
    ensures Find(Letter(d)) == d && IsBase64(Letter(d)) && Letter(d) != '='
  {
    LetterAt(d);
    var i := StrChr(Alphabet(), Letter(d));
    if i < 64 { LetterAt(i); }
  }

  /** Exactly the letters of the alphabet are found. */
  lemma FindMeaning(c: char)
    ensures IsBase64(c) <==> Find(c) < 64
    ensures Find(c) < 64 ==> c == Letter(Find(c))
    ensures Find(c) >= 64 ==> Find(c) == 255
  {
    LetterAt(0);
    var i := StrChr(Alphabet(), c);
    if i < 64 { LetterAt(i); FindLetter(i); }
    if IsBase64(c) {
      var d := SextetOf(c);
      FindLetter(d);
    }
  }

  /** The runs of the alphabet. */
  lemma FindRuns(c: char)
    ensures 'A' <= c <= 'Z' ==> Find(c) == c as nat - 'A' as nat
    ensures 'a' <= c <= 'z' ==> Find(c) == 26 + (c as nat - 'a' as nat)
    ensures '0' <= c <= '9' ==> Find(c) == 52 + (c as nat - '0' as nat)
    ensures Find('+') == 62 && Find('/') == 63
  {
    if IsBase64(c) {
      var d := SextetOf(c);
      FindLetter(d);
    }
    FindLetter(62);
    FindLetter(63);
    hide Find;
  }

  function SextetOf(c: char): (d: nat)
    requires IsBase64(c)
    ensures d < 64 && Letter(d) == c
  {
    if 'A' <= c <= 'Z' then c as nat - 'A' as nat
    else if 'a' <= c <= 'z' then c as nat - 'a' as nat + 26
    else if '0' <= c <= '9' then c as nat - '0' as nat + 52
    else if c == '+' then 62 else 63
  }

  // ----- groups ----------------------------------------------------------------------------

  type Sextets = ds: seq<nat> | forall d <- ds :: d < 64

  function First(a: nat): nat { a / 4 }
  function Second(a: nat, b: nat): nat { a % 4 * 16 + b / 16 }
  function Third(b: nat, c: nat): nat { b % 16 * 4 + c / 64 }
  function Fourth(c: nat): nat { c % 64 }

  /** Three bytes as four sextets. */
  function Group(a: nat, b: nat, c: nat): (g: Sextets)
    requires a < 256 && b < 256 && c < 256
    ensures |g| == 4
  {
    [First(a), Second(a, b), Third(b, c), Fourth(c)]
  }

  function Top(w: nat, x: nat): nat { (w * 4 + x / 16 % 4) % 256 }
  function Middle(x: nat, y: nat): nat { (x % 16 * 16 + y / 4 % 16) % 256 }
  function Bottom(y: nat, z: nat): nat { (y % 4 * 64 + z) % 256 }

  /** Four values as three bytes, cut down to eight bits each. */
  function Octets(w: nat, x: nat, y: nat, z: nat): (o: Bytes)
    ensures |o| == 3
  {
    [Top(w, x), Middle(x, y), Bottom(y, z)]
  }

  lemma GroupOctets(a: nat, b: nat, c: nat)
    requires a < 256 && b < 256 && c < 256
    ensures var g := Group(a, b, c); Octets(g[0], g[1], g[2], g[3]) == [a, b, c]
  {
    hide First, Second, Third, Fourth, Top, Middle, Bottom;
    FirstByte(a, b);
    SecondByte(a, b, c);
    ThirdByte(b, c);
  }

  lemma FirstByte(a: nat, b: nat)
    requires a < 256 && b < 256
    ensures Top(First(a), Second(a, b)) == a
  {
    Across(a % 4, b / 16, 16);
    Whole(a, 4);
  }

  lemma SecondByte(a: nat, b: nat, c: nat)
    requires a < 256 && b < 256 && c < 256
    ensures Middle(Second(a, b), Third(b, c)) == b
  {
    Across(a % 4, b / 16, 16);
    Across(b % 16, c / 64, 4);
    Whole(b, 16);
  }

  lemma ThirdByte(b: nat, c: nat)
    requires b < 256 && c < 256
    ensures Bottom(Third(b, c), Fourth(c)) == c
  {
    Across(b % 16, c / 64, 4);
    Whole(c, 64);
  }

  /** What a sextet takes from two bytes comes apart again. */
  lemma Across(q: nat, r: nat, base: nat)
    requires r < base
    ensures (q * base + r) / base == q && (q * base + r) % base == r
  {
    DivModUnique(q, r, base);
  }

  /** A byte split at a power of two below it is put together again. */
  lemma Whole(n: nat, base: nat)
    requires n < 256 && base in {4, 16, 64}
    ensures n % base % base == n % base && (n / base * base + n % base) % 256 == n
  {
    assert n / base * base + n % base == n;
  }

  /** One or two bytes do not depend on the sextets that are missing. */
  lemma OctetsPartly(w: nat, x: nat, y: nat, z: nat, y': nat, z': nat)
    ensures Octets(w, x, y, z)[..1] == Octets(w, x, y', z')[..1]
    ensures Octets(w, x, y, z)[..2] == Octets(w, x, y, z')[..2]
  {
    hide Top, Middle, Bottom;
  }

  // ----- the codec -------------------------------------------------------------------------

  function SextetsOf(b: Bytes): Sextets {
    if |b| >= 3 then Group(b[0], b[1], b[2]) + SextetsOf(b[3..])
    else if b == [] then []
    else Group(b[0], if |b| > 1 then b[1] else 0, 0)[..|b| + 1]
  }

  function Spell(ds: Sextets): (s: string)
    ensures |s| == |ds| && forall i | 0 <= i < |s| :: ds[i] in ds && s[i] == Letter(ds[i])
  {
    seq(|ds|, i requires 0 <= i < |ds| => assert ds[i] in ds; Letter(ds[i]))
  }

  function Pad(n: nat): string { seq(n, _ => '=') }

  function Missing(n: nat): nat { (3 - n % 3) % 3 }

  function Encode(b: Bytes): string { Spell(SextetsOf(b)) + Pad(Missing(|b|)) }

  /** How many letters, at most four, a string starts with. */
  function Run(s: string): (k: nat)
    ensures k <= |s| && k <= 4 && (forall i | 0 <= i < k :: IsBase64(s[i])) && (k < |s| && k < 4 ==> !IsBase64(s[k]))
  {
    if |s| == 0 || !IsBase64(s[0]) then 0
    else if |s| == 1 || !IsBase64(s[1]) then 1
    else if |s| == 2 || !IsBase64(s[2]) then 2
    else if |s| == 3 || !IsBase64(s[3]) then 3 else 4
  }

  /** What fewer than four letters stand for, with a filler for those missing. */
  function Tail(t: string, filler: nat): Bytes
    requires |t| < 4
  {
    if |t| <= 1 then []
    else Octets(Find(t[0]), Find(t[1]), if |t| > 2 then Find(t[2]) else filler, filler)[..|t| - 1]
  }

  function Decode(s: string): Bytes {
    var k := Run(s);
    if k < 4 then Tail(s[..k], 255)
    else Octets(Find(s[0]), Find(s[1]), Find(s[2]), Find(s[3])) + Decode(s[4..])
  }

  /** The value that stands for a letter not found never reaches the output. */
  lemma FillerIrrelevant(t: string, filler: nat)
    requires |t| < 4
    ensures Tail(t, filler) == Tail(t, 255)
  {
    if |t| > 1 {
      hide Octets;
      var y := if |t| > 2 then Find(t[2]) else filler;
      var y' := if |t| > 2 then Find(t[2]) else 255;
      OctetsPartly(Find(t[0]), Find(t[1]), y, filler, y', 255);
    }
  }

  lemma Spelled(ds: Sextets, rest: string)
    ensures forall i | 0 <= i < |ds| ::
      ds[i] in ds && IsBase64((Spell(ds) + rest)[i]) && Find((Spell(ds) + rest)[i]) == ds[i]
  {
    hide Letter, Find, IsBase64;
    forall i | 0 <= i < |ds| ensures ds[i] in ds && IsBase64(Spell(ds)[i]) && Find(Spell(ds)[i]) == ds[i] {
      var d := ds[i];
      assert d in ds;
      FindLetter(d);
    }
  }

  lemma SpellAppend(ds: Sextets, es: Sextets)
    ensures Spell(ds + es) == Spell(ds) + Spell(es)
  {
    hide Letter;
  }

  lemma MissingAgain(n: nat)
    requires n >= 3
    ensures Missing(n) == Missing(n - 3)
  {
  }

  /** Three bytes more are four letters more. */
  lemma EncodeGroup(b: Bytes)
    requires |b| >= 3
    ensures Encode(b) == Spell(Group(b[0], b[1], b[2])) + Encode(b[3..])
  {
    hide Group, Spell, Pad, Missing, SextetsOf;
    var g, rest := Group(b[0], b[1], b[2]), SextetsOf(b[3..]);
    SextetsGroup(b);
    SpellAppend(g, rest);
    MissingAgain(|b|);
    Concat(Spell(g), Spell(rest), Pad(Missing(|b|)));
  }

  lemma SextetsGroup(b: Bytes)
    requires |b| >= 3
    ensures SextetsOf(b) == Group(b[0], b[1], b[2]) + SextetsOf(b[3..])
  {
    hide Group;
  }

  lemma Concat(s: string, t: string, u: string)
    ensures (s + t) + u == s + (t + u)
  {
  }

  lemma DecodeGroup(g: Sextets, rest: string)
    requires |g| == 4
    ensures Decode(Spell(g) + rest) == Octets(g[0], g[1], g[2], g[3]) + Decode(rest)
  {
    Spelled(g, rest);
    hide Spell, Octets, Find, IsBase64;
    var s := Spell(g) + rest;
    assert s[4..] == rest;
  }

  /** Fewer than four letters before padding are a tail. */
  lemma DecodeTail(t: Sextets, n: nat)
    requires 2 <= |t| <= 3
    ensures Decode(Spell(t) + Pad(n)) == Octets(t[0], t[1], if |t| > 2 then t[2] else 255, 255)[..|t| - 1]
  {
    Spelled(t, Pad(n));
    PadLetter();
    hide Spell, Octets, Find, IsBase64, Letter;
    var s := Spell(t) + Pad(n);
    assert Run(s) == |t|;
    assert forall i | 0 <= i < |t| :: s[..|t|][i] == s[i];
  }

  lemma PadLetter()
    ensures !IsBase64('=')
  {
  }

  lemma EncodeShort(b: Bytes)
    requires 0 < |b| < 3
    ensures Encode(b) == Spell(Group(b[0], if |b| > 1 then b[1] else 0, 0)[..|b| + 1]) + Pad(3 - |b|)
  {
    hide Group, Spell, Pad;
  }

  lemma ShortRoundTrip(b: Bytes)
    requires |b| < 3
    ensures Decode(Encode(b)) == b
  {
    hide Octets, Encode, Decode, Group;
    if b == [] {
      EmptyRoundTrip();
    } else {
      var second := if |b| > 1 then b[1] else 0;
      var g := Group(b[0], second, 0);
      EncodeShort(b);
      DecodeTail(g[..|b| + 1], 3 - |b|);
      GroupOctets(b[0], second, 0);
      var y := if |b| > 1 then g[2] else 255;
      OctetsPartly(g[0], g[1], g[2], g[3], y, 255);
    }
  }

  lemma EmptyRoundTrip()
    ensures Decode(Encode([])) == []
  {
    hide Octets, Find, Group;
  }

  /** Every byte string comes back. */
  lemma {:induction false} RoundTrip(b: Bytes)
    ensures Decode(Encode(b)) == b
  {
    hide Octets, Encode, Decode, Group;
    if |b| >= 3 {
      RoundTrip(b[3..]);
      EncodeGroup(b);
      DecodeGroup(Group(b[0], b[1], b[2]), Encode(b[3..]));
      GroupOctets(b[0], b[1], b[2]);
      assert b == [b[0], b[1], b[2]] + b[3..];
    } else {
      ShortRoundTrip(b);
    }
  }

  lemma {:induction false} SextetCount(b: Bytes)
    ensures |SextetsOf(b)| == |b| / 3 * 4 + (if |b| % 3 == 0 then 0 else |b| % 3 + 1)
  {
    hide Group;
    if |b| >= 3 {
      SextetCount(b[3..]);
      assert |b| / 3 == (|b| - 3) / 3 + 1 && |b| % 3 == (|b| - 3) % 3;
    }
  }

  /** The form is four letters for every three bytes begun. */
  lemma EncodedLength(b: Bytes)
    ensures |Encode(b)| == (|b| + 2) / 3 * 4
  {
    SextetCount(b);
    hide SextetsOf;
    var q, r := |b| / 3, |b| % 3;
    assert (|b| + 2) / 3 == q + if r == 0 then 0 else 1;
  }

  // ----- the form as a number ---------------------------------------------------------------

  /** What the unused low bits of the last sextet multiply the number by. */
  /** The padding is all behind the letters, which are 8 bits a byte in sixes. */
  lemma PaddingMeaning(b: Bytes, i: nat)
    requires i < |Encode(b)|
    ensures Encode(b)[i] == '=' <==> i >= (8 * |b| + 5) / 6
  {
    SextetCount(b);
    var ds := SextetsOf(b);
    if i < |ds| {
      var d := ds[i];
      assert d in ds;
      FindLetter(d);
    }
    hide Letter, Find, SextetsOf;
  }

  function Spare(n: nat): nat { if n % 3 == 0 then 1 else if n % 3 == 1 then 16 else 4 }

  lemma ThreeDigits(ds: seq<nat>, base: nat)
    requires |ds| == 3
    ensures Value(ds, base) == (ds[0] * base + ds[1]) * base + ds[2]
  {
    assert ds == (([] + [ds[0]]) + [ds[1]]) + [ds[2]];
    ValueAppend([], ds[0], base);
    ValueAppend([] + [ds[0]], ds[1], base);
    ValueAppend([] + [ds[0]] + [ds[1]], ds[2], base);
  }

  /** Three bytes and their four sextets are the same number. */
  lemma GroupValue(a: nat, b: nat, c: nat)
    requires a < 256 && b < 256 && c < 256
    ensures Value(Group(a, b, c), 64) == Value([a, b, c], 256)
  {
    var g := Group(a, b, c);
    ThreeDigits([a, b, c], 256);
    ThreeDigits(g[..3], 64);
    assert g == g[..3] + [g[3]];
    ValueAppend(g[..3], g[3], 64);
    hide Value;
  }

  lemma OneByte(a: nat)
    requires a < 256
    ensures var g := Group(a, 0, 0); Value(g[..2], 64) == Value([a], 256) * 16
  {
    var g := Group(a, 0, 0);
    assert g[..2] == ([] + [g[0]]) + [g[1]] && [a] == [] + [a];
    ValueAppend([], a, 256);
    ValueAppend([], g[0], 64);
    ValueAppend([] + [g[0]], g[1], 64);
    hide Value;
  }

  lemma TwoBytes(a: nat, b: nat)
    requires a < 256 && b < 256
    ensures var g := Group(a, b, 0); Value(g[..3], 64) == Value([a, b], 256) * 4
  {
    var g := Group(a, b, 0);
    assert [a, b] == ([] + [a]) + [b];
    ValueAppend([], a, 256);
    ValueAppend([] + [a], b, 256);
    ThreeDigits(g[..3], 64);
    hide Value;
  }

  lemma ShortValue(b: Bytes)
    requires |b| < 3
    ensures Value(SextetsOf(b), 64) == Value(b, 256) * Spare(|b|)
    ensures Pow(64, |SextetsOf(b)|) == Pow(256, |b|) * Spare(|b|)
  {
    hide Pow, Group;
    PowSmall();
    if |b| == 1 {
      assert b == [b[0]];
      OneByte(b[0]);
    } else if |b| == 2 {
      assert b == [b[0], b[1]];
      TwoBytes(b[0], b[1]);
    }
  }

  lemma PowSmall()
    ensures Pow(64, 0) == 1 && Pow(64, 2) == 0x1000 && Pow(64, 3) == 0x4_0000 && Pow(64, 4) == 0x100_0000
    ensures Pow(256, 0) == 1 && Pow(256, 1) == 0x100 && Pow(256, 2) == 0x1_0000 && Pow(256, 3) == 0x100_0000
  {
    assert Pow(64, 2) == Pow(64, 1) * 64 && Pow(64, 3) == Pow(64, 2) * 64 && Pow(64, 4) == Pow(64, 3) * 64;
    assert Pow(256, 2) == Pow(256, 1) * 256 && Pow(256, 3) == Pow(256, 2) * 256;
  }

  /** The sextets before the padding are the bytes, as one number in base 64 with
      some zero bits after it. */
  lemma {:induction false} SextetsValue(b: Bytes)
    ensures Value(SextetsOf(b), 64) == Value(b, 256) * Spare(|b|)
    ensures Pow(64, |SextetsOf(b)|) == Pow(256, |b|) * Spare(|b|)
  {
    hide Value, Group, Pow, Spare;
    if |b| >= 3 {
      var head: Bytes, rest: Bytes := b[..3], b[3..];
      var g := Group(b[0], b[1], b[2]);
      SpareAgain(|b|);
      SextetsValue(rest);
      GroupValue(b[0], b[1], b[2]);
      ValueSplit(g, SextetsOf(rest), 64);
      assert b == head + rest && head == [b[0], b[1], b[2]];
      ValueSplit(head, rest, 256);
      PowSmall();
      PowSplit(64, 4, |SextetsOf(rest)|);
      PowSplit(256, 3, |rest|);
      Combine(Value(head, 256), Pow(256, |rest|), Value(rest, 256), Spare(|rest|));
    } else {
      ShortValue(b);
    }
  }

  lemma SpareAgain(n: nat)
    requires n >= 3
    ensures Spare(n) == Spare(n - 3)
  {
  }

  lemma Combine(h: nat, p: nat, v: nat, spare: nat)
    ensures h * (p * spare) + v * spare == (h * p + v) * spare
    ensures 0x100_0000 * (p * spare) == (0x100_0000 * p) * spare
  {
  }

  // ----- which strings decode to which bytes -----------------------------------------------

  /** The sextets of the letters a string starts with. */
  function SextetsIn(s: string): (ds: Sextets)
    ensures |ds| <= |s|
  {
    if s == [] || !IsBase64(s[0]) then []
    else
      FindMeaning(s[0]);
      [Find(s[0])] + SextetsIn(s[1..])
  }

  /** How many bytes so many sextets fill. */
  function Filled(n: nat): nat { n * 3 / 4 }

  /** What dropping the bits that fill no byte divides by. */
  function Drop(n: nat): nat
  {
    if n % 4 == 0 then 1 else if n % 4 == 1 then 64 else if n % 4 == 2 then 16 else 4
  }

  lemma SextetsNext(s: string)
    requires s != [] && IsBase64(s[0])
    ensures SextetsIn(s) == [Find(s[0])] + SextetsIn(s[1..]) && Find(s[0]) < 64
  {
    FindMeaning(s[0]);
  }

  lemma {:induction false} SextetsRun(s: string, k: nat)
    requires k <= |s| && forall i | 0 <= i < k :: IsBase64(s[i])
    ensures |SextetsIn(s)| >= k && SextetsIn(s) == SextetsIn(s)[..k] + SextetsIn(s[k..])
    ensures forall i | 0 <= i < k :: SextetsIn(s)[i] == Find(s[i]) < 64
    ensures (k == |s| || !IsBase64(s[k])) ==> |SextetsIn(s)| == k
  {
    hide Find, IsBase64;
    if k == 0 {
      assert s[0..] == s;
    } else {
      SextetsNext(s);
      SextetsRun(s[1..], k - 1);
      assert s[1..][k - 1..] == s[k..];
      var ds := SextetsIn(s);
      assert ds[1..] == SextetsIn(s[1..]);
    }
  }

  /** Four sextets and their three bytes are the same number. */
  lemma OctetsValue(g: Sextets)
    requires |g| == 4
    ensures Value(Octets(g[0], g[1], g[2], g[3]), 256) == Value(g, 64)
  {
    var w, x, y, z := g[0], g[1], g[2], g[3];
    assert w in g && x in g && y in g && z in g;
    var o := Octets(w, x, y, z);
    OctetsExact(w, x, y, z);
    ThreeDigits(o, 256);
    ThreeDigits(g[..3], 64);
    assert g == g[..3] + [z];
    ValueAppend(g[..3], z, 64);
    hide Value, Octets;
  }

  /** For sextets nothing is cut off. */
  lemma OctetsExact(w: nat, x: nat, y: nat, z: nat)
    requires w < 64 && x < 64 && y < 64 && z < 64
    ensures Octets(w, x, y, z) == [w * 4 + x / 16, x % 16 * 16 + y / 4, y % 4 * 64 + z]
  {
    assert Top(w, x) == w * 4 + x / 16;
    assert Middle(x, y) == x % 16 * 16 + y / 4;
    assert Bottom(y, z) == y % 4 * 64 + z;
    hide Top, Middle, Bottom;
  }

  lemma TwoDigits(ds: seq<nat>, base: nat)
    requires |ds| == 2
    ensures Value(ds, base) == ds[0] * base + ds[1]
  {
    assert ds == ([] + [ds[0]]) + [ds[1]];
    ValueAppend([], ds[0], base);
    ValueAppend([] + [ds[0]], ds[1], base);
  }

  lemma OneDigit(d: nat, base: nat)
    ensures Value([d], base) == d
  {
    assert [d] == [] + [d];
    ValueAppend([], d, base);
  }

  lemma TwoLetters(w: nat, x: nat)
    requires w < 64 && x < 64
    ensures Value([w * 4 + x / 16], 256) == Value([w, x], 64) / 16
  {
    TwoDigits([w, x], 64);
    OneDigit(w * 4 + x / 16, 256);
    hide Value;
  }

  lemma ThreeLetters(w: nat, x: nat, y: nat)
    requires w < 64 && x < 64 && y < 64
    ensures Value([w * 4 + x / 16, x % 16 * 16 + y / 4], 256) == Value([w, x, y], 64) / 4
  {
    hide Value;
    ThreeDigits([w, x, y], 64);
    TwoDigits([w * 4 + x / 16, x % 16 * 16 + y / 4], 256);
  }

  /** Two or three sextets, and the whole bytes in them. */
  lemma TailNumber(g: Sextets, y: nat, z: nat)
    requires 2 <= |g| <= 3 && (|g| == 3 ==> y == g[2])
    ensures Value(Octets(g[0], g[1], y, z)[..|g| - 1], 256) == Value(g, 64) / Drop(|g|)
  {
    hide Value, Octets;
    var w, x := g[0], g[1];
    assert w in g && x in g;
    OctetsPartly(w, x, y, z, 0, 0);
    if |g| == 2 {
      assert g == [w, x];
      OctetsExact(w, x, 0, 0);
      TwoLetters(w, x);
      assert Octets(w, x, y, z)[..1] == [w * 4 + x / 16];
    } else {
      assert g == [w, x, y] && y in g;
      OctetsExact(w, x, y, 0);
      ThreeLetters(w, x, y);
      assert Octets(w, x, y, z)[..2] == [w * 4 + x / 16, x % 16 * 16 + y / 4];
    }
  }

  lemma {:induction false} PowDrop(n: nat)
    ensures Pow(64, n) == Pow(256, Filled(n)) * Drop(n)
  {
    hide Pow, Drop, Filled;
    if n >= 4 {
      PowSmall();
      PowDrop(n - 4);
      PowSplit(64, 4, n - 4);
      PowSplit(256, 3, Filled(n - 4));
      FilledAgain(n);
      MulAssoc(0x100_0000, Pow(256, Filled(n - 4)), Drop(n - 4));
    } else {
      PowDropSmall(n);
    }
  }

  lemma PowDropSmall(n: nat)
    requires n < 4
    ensures Pow(64, n) == Pow(256, Filled(n)) * Drop(n)
  {
    PowSmall();
    assert Pow(64, 1) == 64;
    hide Pow;
  }

  lemma FilledAgain(n: nat)
    requires n >= 4
    ensures Filled(n) == Filled(n - 4) + 3 && Drop(n) == Drop(n - 4)
  {
  }

  lemma DropSum(h: nat, p: nat, v: nat, d: nat)
    requires d > 0
    ensures (h * (p * d) + v) / d == h * p + v / d
  {
    assert h * (p * d) == (h * p) * d;
    assert v == (v / d) * d + v % d;
    assert (h * p + v / d) * d == (h * p) * d + (v / d) * d;
    DivModUnique(h * p + v / d, v % d, d);
  }

  /** The bytes are as many as the letters fill, and the number the letters spell
      without its spare bits. */
  lemma {:induction false} DecodedNumber(s: string)
    ensures |Decode(s)| == Filled(|SextetsIn(s)|)
    ensures Value(Decode(s), 256) == Value(SextetsIn(s), 64) / Drop(|SextetsIn(s)|)
    decreases |s|
  {
    hide Find, IsBase64, Value, Octets, Pow, SextetsIn;
    var k, ds := Run(s), SextetsIn(s);
    SextetsRun(s, k);
    if k == 4 {
      var rest := SextetsIn(s[4..]);
      DecodedNumber(s[4..]);
      var g: Sextets := ds[..4];
      var o := Octets(g[0], g[1], g[2], g[3]);
      OctetsValue(g);
      ValueSplit(g, rest, 64);
      ValueSplit(o, Decode(s[4..]), 256);
      PowDrop(|rest|);
      FilledAgain(|ds|);
      hide Filled, Drop;
      DropSum(Value(g, 64), Pow(256, Filled(|rest|)), Value(rest, 64), Drop(|rest|));
    } else {
      ShortNumber(s, k);
    }
  }

  lemma ShortNumber(s: string, k: nat)
    requires k == Run(s) < 4 && |SextetsIn(s)| == k && forall i | 0 <= i < k :: SextetsIn(s)[i] == Find(s[i]) < 64
    ensures |Decode(s)| == Filled(k) && Value(Decode(s), 256) == Value(SextetsIn(s), 64) / Drop(k)
  {
    hide Find, IsBase64, Octets, SextetsIn;
    var g, t := SextetsIn(s), s[..k];
    if k >= 2 {
      TailNumber(g, if k > 2 then Find(t[2]) else 255, 255);
    } else if k == 1 {
      assert g == [] + [g[0]];
      ValueAppend([], g[0], 64);
    }
    hide Value;
  }

  /** A string decodes to given bytes exactly when they are as many as its letters
      fill, and the number these spell without its spare bits. */
  lemma DecodeExact(s: string, b: Bytes)
    ensures var ds := SextetsIn(s);
      Decode(s) == b <==> |b| == Filled(|ds|) && Value(b, 256) == Value(ds, 64) / Drop(|ds|)
  {
    hide Decode, SextetsIn, Value, Filled, Drop;
    DecodedNumber(s);
    if |b| == |Decode(s)| && Value(b, 256) == Value(Decode(s), 256) {
      ValueInjective(Decode(s), b, 256);
    }
  }

  // ----- the codec step by step -------------------------------------------------------------

  /** Three bytes in one buffer to four sextets in another. */
  method Split(char3: array<nat>, char4: array<nat>)
    requires char3.Length == 3 && char4.Length == 4 && char3 != char4
    requires char3[0] < 256 && char3[1] < 256 && char3[2] < 256
    modifies char4
    ensures char4[..] == Group(char3[0], char3[1], char3[2])
  {
    char4[0] := char3[0] / 4;
    char4[1] := char3[0] % 4 * 16 + char3[1] / 16;
    char4[2] := char3[1] % 16 * 4 + char3[2] / 64;
    char4[3] := char3[2] % 64;
  }

  /** Append the letters of the first sextets. */
  method AppendLetters(ret: string, char4: array<nat>, n: nat, ghost g: Sextets) returns (r: string)
    requires char4[..] == g && n <= |g|
    ensures r == ret + Spell(g[..n])
  {
    hide Letter, Spell;
    r := ret;
    SpellNone();
    for j := 0 to n
      invariant r == ret + Spell(g[..j])
    {
      var d := char4[j];
      assert d == g[j] && d in g;
      LetterAt(d);
      SpellOne(g[..j], d);
      assert g[..j + 1] == g[..j] + [d];
      r := r + [Alphabet()[d]];
    }
  }

  lemma SpellNone()
    ensures Spell([]) == ""
  {
  }

  lemma SpellOne(ds: Sextets, d: nat)
    requires d < 64
    ensures Spell(ds + [d]) == Spell(ds) + [Letter(d)]
  {
    hide Letter;
  }

  /** What is still to come after a group. */
  lemma NextGroup(b: Bytes, p: nat)
    requires p + 3 <= |b|
    ensures var g := Group(b[p], b[p + 1], b[p + 2]);
      Spell(SextetsOf(b[p..])) == Spell(g) + Spell(SextetsOf(b[p + 3..]))
  {
    hide Group, Spell;
    assert b[p..][3..] == b[p + 3..];
    SpellAppend(Group(b[p], b[p + 1], b[p + 2]), SextetsOf(b[p + 3..]));
  }

  /** Three bytes gathered become four letters. */
  method Flush(ret: string, char3: array<nat>, char4: array<nat>, ghost b: Bytes, ghost p: nat) returns (r: string)
    requires char3.Length == 3 && char4.Length == 4 && char3 != char4
    requires p + 3 <= |b| && char3[..] == b[p..p + 3]
    requires Spell(SextetsOf(b)) == ret + Spell(SextetsOf(b[p..]))
    modifies char4
    ensures Spell(SextetsOf(b)) == r + Spell(SextetsOf(b[p + 3..]))
  {
    hide Group, Spell, SextetsOf, Letter;
    NextGroup(b, p);
    assert char3[0] == b[p..p + 3][0] && char3[1] == b[p..p + 3][1] && char3[2] == b[p..p + 3][2];
    ghost var g := Group(b[p], b[p + 1], b[p + 2]);
    Split(char3, char4);
    r := AppendLetters(ret, char4, 4, g);
    assert g[..4] == g;
  }

  method Base64Encode(b: Bytes) returns (ret: string)
    ensures ret == Encode(b)
  {
    hide Group, Spell, SextetsOf, Letter, Pad;
    var char3, char4 := new nat[3], new nat[4];
    var i, p := 0, 0;
    ret := "";
    assert b[0..] == b;
    while p < |b|
      invariant i < 3 && i <= p <= |b| && (p - i) % 3 == 0 && char3[..i] == b[p - i..p]
      invariant Spell(SextetsOf(b)) == ret + Spell(SextetsOf(b[p - i..]))
    {
      char3[i] := b[p];
      i, p := i + 1, p + 1;
      assert char3[..i] == b[p - i..p];
      if i == 3 {
        assert char3[..] == char3[..3];
        ret := Flush(ret, char3, char4, b, p - 3);
        i := 0;
      }
    }
    ret := Finish(ret, b, i, char3, char4);
  }

  /** The letters and the padding for the bytes left over. */
  method Finish(done: string, b: Bytes, left: nat, char3: array<nat>, char4: array<nat>) returns (ret: string)
    requires left < 3 && left <= |b| && (|b| - left) % 3 == 0
    requires char3.Length == 3 && char4.Length == 4 && char3 != char4 && char3[..left] == b[|b| - left..]
    requires Spell(SextetsOf(b)) == done + Spell(SextetsOf(b[|b| - left..]))
    modifies char3, char4
    ensures ret == Encode(b)
  {
    hide Group, Spell, Letter, SextetsOf;
    ret := done;
    ghost var rest := b[|b| - left..];
    var i := left;
    LeftOver(rest);
    MissingIs(|b|, left);
    if i > 0 {
      assert char3[0] == rest[0];
      for j := i to 3
        invariant char3[..left] == rest && forall k | left <= k < j :: char3[k] == 0
      {
        char3[j] := 0;
      }
      assert i == 2 ==> char3[1] == rest[1];
      Split(char3, char4);
      ret := AppendLetters(ret, char4, i + 1, Group(rest[0], if i > 1 then rest[1] else 0, 0));
      ghost var spelled := ret;
      while i < 3
        invariant left <= i <= 3 && ret == spelled + Pad(i - left)
      {
        ret := ret + "=";
        i := i + 1;
      }
    }
  }

  lemma LeftOver(rest: Bytes)
    requires |rest| < 3
    ensures rest == [] ==> Spell(SextetsOf(rest)) == ""
    ensures rest != [] ==>
      SextetsOf(rest) == Group(rest[0], if |rest| > 1 then rest[1] else 0, 0)[..|rest| + 1]
  {
    hide Group;
  }

  lemma MissingIs(n: nat, left: nat)
    requires left < 3 && left <= n && (n - left) % 3 == 0
    ensures Missing(n) == if left == 0 then 0 else 3 - left
  {
  }

  /** Four letters to their sextets, and those to three bytes. */
  method Join(letters: array<char>, char4: array<nat>, char3: array<nat>)
    requires letters.Length == 4 && char4.Length == 4 && char3.Length == 3 && char3 != char4
    modifies char4, char3
    ensures char3[..] == Octets(Find(letters[0]), Find(letters[1]), Find(letters[2]), Find(letters[3]))
  {
    hide Find;
    for i := 0 to 4
      invariant forall k | 0 <= k < i :: char4[k] == Find(letters[k])
    {
      char4[i] := Find(letters[i]);
    }
    char3[0] := (char4[0] * 4 + char4[1] / 16 % 4) % 256;
    char3[1] := (char4[1] % 16 * 16 + char4[2] / 4 % 16) % 256;
    char3[2] := (char4[2] % 4 * 64 + char4[3]) % 256;
  }

  lemma DecodeNext(s: string, p: nat)
    requires p + 4 <= |s| && forall k | p <= k < p + 4 :: IsBase64(s[k])
    ensures Decode(s[p..]) == Octets(Find(s[p]), Find(s[p + 1]), Find(s[p + 2]), Find(s[p + 3])) + Decode(s[p + 4..])
  {
    hide Find, Octets, IsBase64;
    assert s[p..][4..] == s[p + 4..];
  }

  lemma DecodeEnd(s: string, p: nat, i: nat)
    requires p + i <= |s| && i < 4 && (forall k | p <= k < p + i :: IsBase64(s[k]))
    requires p + i < |s| ==> s[p + i] == '=' || !IsBase64(s[p + i])
    ensures Decode(s[p..]) == Tail(s[p..p + i], 255) && (i == 0 ==> Decode(s[p..]) == [])
  {
    PadLetter();
    hide Find, Octets, IsBase64;
    var t := s[p..];
    assert i < |t| ==> t[i] == s[p + i];
    assert Run(t) == i;
    assert t[..i] == s[p..p + i];
  }

  method Base64Decode(s: string) returns (ret: Bytes)
    ensures ret == Decode(s)
  {
    hide Find, Octets, IsBase64, Decode, Tail;
    var letters, char4, char3 := new char[4], new nat[4], new nat[3];
    var i, next := 0, 0;
    ret := [];
    assert s[0..] == s;
    while next < |s| && s[next] != '=' && IsBase64(s[next])
      invariant i < 4 && i <= next <= |s| && letters[..i] == s[next - i..next]
      invariant forall k | next - i <= k < next :: IsBase64(s[k])
      invariant Decode(s) == ret + Decode(s[next - i..])
    {
      letters[i] := s[next];
      i, next := i + 1, next + 1;
      assert letters[..i] == s[next - i..next];
      if i == 4 {
        DecodeNext(s, next - 4);
        assert forall k | 0 <= k < 4 :: letters[k] == letters[..4][k] == s[next - 4 + k];
        Join(letters, char4, char3);
        ghost var o := Octets(Find(s[next - 4]), Find(s[next - 3]), Find(s[next - 2]), Find(s[next - 1]));
        assert ret + (o + Decode(s[next..])) == ret + o + Decode(s[next..]);
        ret := ret + char3[..];
        i := 0;
      }
    }
    DecodeEnd(s, next - i, i);
    if i > 0 {
      ghost var t := s[next - i..next];
      for j := i to 4
        invariant letters[..i] == t && forall k | i <= k < j :: letters[k] == '\0'
      {
        letters[j] := '\0';
      }
      Join(letters, char4, char3);
      TailIs(t, letters[..], char3[..]);
      ret := ret + char3[..i - 1];
    }
  }

  lemma TailIs(t: string, letters: string, o: Bytes)
    requires 0 < |t| < 4 && |letters| == 4 && letters[..|t|] == t && forall k | |t| <= k < 4 :: letters[k] == '\0'
    requires o == Octets(Find(letters[0]), Find(letters[1]), Find(letters[2]), Find(letters[3]))
    ensures o[..|t| - 1] == Tail(t, 255)
  {
    FindMeaning('\0');
    hide Octets, Find;
    forall k | 0 <= k < |t| ensures letters[k] == t[k] { assert letters[..|t|][k] == t[k]; }
  }
}
