/** Vocabulary shared by every component: bytes, optional results, and the
    ascending traversal order of the ordered containers. */
module Common {

  type byte = x: int | 0 <= x < 256

  datatype Option<+T> = None | Some(value: T)

  ghost predicate NoDup<T>(xs: seq<T>) {
    forall i, j :: 0 <= i < j < |xs| ==> xs[i] != xs[j]
  }

  ghost function Elements<T>(xs: seq<T>): set<T> {
    set x | x in xs
  }

  ghost predicate Ascending(xs: seq<int>) {
    forall i, j :: 0 <= i < j < |xs| ==> xs[i] < xs[j]
  }

  /** The numbers below `n`, in order. */
  function Upto(n: nat): (r: seq<int>)
    ensures |r| == n && forall i | 0 <= i < n :: r[i] == i
  {
    seq(n, (i: nat) => i as int)
  }

  lemma {:induction false} LeastExists(s: set<int>, y: int)
    requires y in s
    ensures exists m :: m in s && forall x :: x in s ==> m <= x
    decreases s
  {
    if z :| z in s && z < y {
      assert z in s - {y};
      LeastExists(s - {y}, z);
      var w :| w in s - {y} && forall x :: x in s - {y} ==> w <= x;
      forall x | x in s ensures w <= x {
        assert x == y || x in s - {y};
      }
    } else {
      assert y in s && forall x :: x in s ==> y <= x;
    }
  }

  function Least(s: set<int>): (m: int)
    requires |s| > 0
    ensures m in s && forall x :: x in s ==> m <= x
  {
    assert (forall y :: y !in s) ==> s == {};
    assert exists m :: m in s && forall x :: x in s ==> m <= x by {
      var y :| y in s;
      LeastExists(s, y);
    }
    var m :| m in s && forall x :: x in s ==> m <= x;
    m
  }

  lemma InOrderStep(s: set<int>, m: int, rest: seq<int>)
    requires m in s && forall x :: x in s ==> m <= x
    requires Ascending(rest) && Elements(rest) == s - {m}
    ensures Ascending([m] + rest) && Elements([m] + rest) == s
  {
    var xs := [m] + rest;
    forall j | 0 < j < |xs| ensures m < xs[j] {
      assert xs[j] == rest[j - 1] && rest[j - 1] in Elements(rest);
    }
    forall x ensures x in Elements(xs) <==> x in s {
      assert x in xs <==> x == m || x in rest;
      assert x in rest <==> x in Elements(rest);
    }
  }

  /** The order in which an ordered set or the keys of an ordered map are visited. */
  function InOrder(s: set<int>): (xs: seq<int>)
    ensures Ascending(xs) && Elements(xs) == s && |xs| == |s|
  {
    if |s| == 0 then []
    else
      var m := Least(s);
      var rest := InOrder(s - {m});
      InOrderStep(s, m, rest);
      [m] + rest
  }

  lemma OneMore<T>(a: set<T>, x: T)
    requires x !in a
    ensures |a + {x}| == |a| + 1
  {
    assert a * {x} == {};
  }

  lemma OneLess<T>(a: set<T>, x: T)
    requires x in a
    ensures |a - {x}| == |a| - 1
  {
    assert a == (a - {x}) + {x};
    OneMore(a - {x}, x);
  }

  lemma {:induction false} SubsetSize<T>(a: set<T>, b: set<T>)
    requires a <= b
    ensures |a| <= |b|
  {
    if x :| x in a {
      SubsetSize(a - {x}, b - {x});
    }
  }

  lemma SubsetEqual<T>(a: set<T>, b: set<T>)
    requires a <= b && |a| >= |b|
    ensures a == b
  {
    if x :| x in b && x !in a {
      SubsetSize(a, b - {x});
      OneLess(b, x);
    }
  }

  lemma {:induction false} UnionSize<T>(a: set<T>, b: set<T>)
    ensures |a + b| <= |a| + |b|
  {
    assert a + b == a + (b - a);
    assert a * (b - a) == {};
    SubsetSize(b - a, b);
  }

  lemma AppendElements<T>(xs: seq<T>, x: T)
    ensures Elements(xs + [x]) == Elements(xs) + {x}
    ensures NoDup(xs + [x]) <==> NoDup(xs) && x !in xs
  {
    var ys := xs + [x];
    assert ys[|xs|] == x;
    assert forall i | 0 <= i < |xs| :: ys[i] == xs[i];
    if NoDup(ys) {
      assert forall i | 0 <= i < |xs| :: ys[i] != ys[|xs|];
    }
  }

  /** A sequence has as many distinct elements as places exactly when none repeats. */
  lemma {:induction false} ElementsSize<T>(xs: seq<T>)
    ensures |Elements(xs)| <= |xs|
    ensures NoDup(xs) <==> |Elements(xs)| == |xs|
  {
    if xs == [] {
      assert Elements(xs) == {};
    } else {
      var init, x := xs[..|xs| - 1], xs[|xs| - 1];
      ElementsSize(init);
      AppendElements(init, x);
      assert xs == init + [x];
      if x in init {
        assert Elements(init) + {x} == Elements(init);
      } else {
        OneMore(Elements(init), x);
      }
    }
  }

  lemma SameElements(xs: seq<int>, s: set<int>)
    requires forall x :: x in xs <==> x in s
    ensures Elements(xs) == s
  {
    forall x ensures x in Elements(xs) <==> x in s {
      assert x in Elements(xs) <==> x in xs;
    }
  }
}
