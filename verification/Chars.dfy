/** C strings and white space. */
module Chars {

  /** What the C string of `s` holds: everything before the first NUL. */
  function CString(s: string): (r: string)
    ensures '\0' !in r && r <= s
    ensures '\0' !in s ==> r == s
  {
    if s == [] || s[0] == '\0' then [] else [s[0]] + CString(s[1..])
  }

  /** The first position of a character in a string, or the length. */
  function StrChr(s: string, c: char): (i: nat)
    ensures i <= |s| && (i < |s| ==> s[i] == c) && forall k | 0 <= k < i :: s[k] != c
  {
    if s == [] || s[0] == c then 0 else StrChr(s[1..], c) + 1
  }

  /** The white space of the "C" locale. */
  predicate IsSpace(c: char) { c == ' ' || '\t' <= c <= '\r' }

  /** Space, tab, newline, vertical tab, form feed and carriage return. */
  lemma SpaceExactly(c: char)
    ensures IsSpace(c) <==> c as int in {0x20, 0x09, 0x0a, 0x0b, 0x0c, 0x0d}
  {
  }

  ghost predicate Blank(s: string) { forall c <- s :: IsSpace(c) }

  function TrimLeft(s: string): string {
    if s != [] && IsSpace(s[0]) then TrimLeft(s[1..]) else s
  }

  function TrimRight(s: string): string {
    if s != [] && IsSpace(s[|s| - 1]) then TrimRight(s[..|s| - 1]) else s
  }

  function Strip(s: string): string { TrimRight(TrimLeft(s)) }

  /** No white space at either end. */
  predicate Stripped(s: string) {
    s != [] ==> !IsSpace(s[0]) && !IsSpace(s[|s| - 1])
  }

  lemma {:induction false} TrimLeftBlank(w: string, s: string)
    requires Blank(w)
    ensures TrimLeft(w + s) == TrimLeft(s)
  {
    if w == [] {
      assert w + s == s;
    } else {
      assert w[0] in w && forall c <- w[1..] :: c in w;
      TrimLeftBlank(w[1..], s);
      assert (w + s)[1..] == w[1..] + s;
    }
  }

  lemma {:induction false} TrimRightBlank(s: string, w: string)
    requires Blank(w)
    ensures TrimRight(s + w) == TrimRight(s)
  {
    if w == [] {
      assert s + w == s;
    } else {
      var front := w[..|w| - 1];
      assert w[|w| - 1] in w && forall c <- front :: c in w;
      TrimRightBlank(s, front);
      assert (s + w)[..|s + w| - 1] == s + front;
    }
  }

  /** Trimming takes a blank off an end and stops at anything else. */
  lemma {:induction false} TrimLeftSplit(s: string) returns (w: string)
    ensures Blank(w) && s == w + TrimLeft(s)
    ensures TrimLeft(s) != [] ==> !IsSpace(TrimLeft(s)[0])
  {
    if s != [] && IsSpace(s[0]) {
      var rest := TrimLeftSplit(s[1..]);
      w := [s[0]] + rest;
    } else {
      w := [];
    }
  }

  lemma {:induction false} TrimRightSplit(s: string) returns (w: string)
    ensures Blank(w) && s == TrimRight(s) + w
    ensures TrimRight(s) != [] ==> !IsSpace(TrimRight(s)[|TrimRight(s)| - 1])
  {
    if s != [] && IsSpace(s[|s| - 1]) {
      var rest := TrimRightSplit(s[..|s| - 1]);
      w := rest + [s[|s| - 1]];
    } else {
      w := [];
    }
  }

  /** A stripped string between blanks is what stripping leaves. */
  lemma StripIs(left: string, s: string, right: string)
    requires Blank(left) && Blank(right) && Stripped(s)
    ensures Strip(left + s + right) == s
  {
    assert left + s + right == left + (s + right);
    TrimLeftBlank(left, s + right);
    if s == [] {
      TrimLeftBlank(right, []);
      assert s + right == right + [] == right;
    } else {
      TrimRightBlank(s, right);
    }
  }

  lemma StripSplit(s: string) returns (left: string, right: string)
    ensures Blank(left) && Blank(right) && s == left + Strip(s) + right && Stripped(Strip(s))
  {
    left := TrimLeftSplit(s);
    right := TrimRightSplit(TrimLeft(s));
    assert s == left + (Strip(s) + right);
    if Strip(s) != [] { assert Strip(s)[0] == TrimLeft(s)[0]; }
  }

  /** Surrounding white space does not matter. */
  lemma StripBlank(w: string, s: string, w': string)
    requires Blank(w) && Blank(w')
    ensures Strip(w + s + w') == Strip(s)
  {
    var left, right := StripSplit(s);
    var t := Strip(s);
    assert w + s + w' == (w + left) + t + (right + w');
    StripIs(w + left, t, right + w');
  }

  lemma CStringStep(c: char, s: string)
    requires c != '\0'
    ensures CString([c] + s) == [c] + CString(s)
  {
  }

  lemma {:induction false} CStringFront(w: string, s: string)
    requires Blank(w)
    ensures CString(w + s) == w + CString(s)
  {
    hide CString;
    if w == [] {
      assert w + s == s && w + CString(s) == CString(s);
    } else {
      var rest := w[1..];
      assert w[0] in w && forall c <- rest :: c in w;
      CStringFront(rest, s);
      CStringStep(w[0], rest + s);
      assert w + s == [w[0]] + (rest + s);
      assert w + CString(s) == [w[0]] + (rest + CString(s));
    }
  }

  /** A string that has a NUL ends there whatever follows. */
  lemma {:induction false} CStringCut(s: string, w: string)
    requires '\0' in s
    ensures CString(s + w) == CString(s)
  {
    assert (s + w)[0] == s[0];
    if s[0] != '\0' {
      CStringCut(s[1..], w);
      assert (s + w)[1..] == s[1..] + w;
    }
  }

  /** The string a C function reads, without white space around it. */
  function Content(s: string): string { Strip(CString(s)) }

  lemma ContentBlank(w: string, s: string, w': string)
    requires Blank(w) && Blank(w')
    ensures Content(w + s + w') == Content(s)
  {
    assert w + s + w' == w + (s + w');
    CStringFront(w, s + w');
    if '\0' in s {
      CStringCut(s, w');
      assert w + CString(s) == w + CString(s) + [];
      StripBlank(w, CString(s), []);
    } else {
      assert '\0' !in s + w';
      StripBlank(w, s, w');
    }
  }
}
