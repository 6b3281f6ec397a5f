/** Counted page locks: a page stays locked in memory as long as some range that
    was locked and not yet unlocked overlaps it. */
module LockedPages {
  import opened Radix

  /** One more than the last address. */
  const SPACE := 0x1_0000_0000_0000_0000

  /** The pages divide the address space. */
  predicate PageSize(pg: nat) { 0 < pg <= SPACE && IsPage(pg, SPACE) }

  predicate IsPage(pg: nat, q: nat) { pg > 0 && q % pg == 0 }

  datatype Range = Range(p: nat, size: nat)

  predicate Addressable(r: Range) { r.p < SPACE && r.size < SPACE }

  /** An address of 64 bits. */
  function Wrap(a: nat): nat { a % SPACE }

  lemma WrapSmall(a: nat)
    requires a < SPACE
    ensures Wrap(a) == a
  {
  }

  function PageOf(pg: nat, a: nat): (q: nat)
    requires pg > 0
    ensures q <= a
  {
    a - a % pg
  }

  function StartPage(pg: nat, r: Range): nat
    requires pg > 0
  {
    PageOf(pg, r.p)
  }

  /** The page of the last byte, whose address wraps around. */
  function EndPage(pg: nat, r: Range): nat
    requires pg > 0 && r.size > 0
  {
    PageOf(pg, (r.p + r.size - 1) % SPACE)
  }

  /** The pages the loops are meant to go through. */
  predicate Touched(pg: nat, r: Range, q: nat)
    requires pg > 0
  {
    r.size > 0 && IsPage(pg, q) && StartPage(pg, r) <= q <= EndPage(pg, r)
  }

  // ----- page arithmetic -----------------------------------------------------------

  lemma PageIndex(pg: nat, q: nat)
    requires IsPage(pg, q)
    ensures q == (q / pg) * pg
  {
  }

  lemma Multiple(pg: nat, k: nat)
    requires pg > 0
    ensures IsPage(pg, k * pg)
  {
    DivModUnique(k, 0, pg);
  }

  lemma PageAfter(pg: nat, q: nat)
    requires IsPage(pg, q)
    ensures IsPage(pg, q + pg)
  {
    PageIndex(pg, q);
    Multiple(pg, q / pg + 1);
    assert (q / pg + 1) * pg == (q / pg) * pg + pg;
  }

  lemma PageBefore(pg: nat, q: nat)
    requires IsPage(pg, q) && q >= pg
    ensures IsPage(pg, q - pg)
  {
    PageIndex(pg, q);
    var k := q / pg;
    hide IsPage;
    if k < 1 { MulMonotone(k, 0, pg); }
    Multiple(pg, k - 1);
    assert (k - 1) * pg == k * pg - pg;
  }

  lemma PageAligned(pg: nat, a: nat)
    requires pg > 0
    ensures IsPage(pg, PageOf(pg, a)) && PageOf(pg, a) <= a < PageOf(pg, a) + pg
  {
    DivModUnique(a / pg, 0, pg);
  }

  /** Page addresses are a page apart. */
  lemma Apart(pg: nat, q: nat, q': nat)
    requires IsPage(pg, q) && IsPage(pg, q') && q < q'
    ensures q + pg <= q'
  {
    PageIndex(pg, q);
    PageIndex(pg, q');
    hide IsPage;
    var k, k' := q / pg, q' / pg;
    if k' <= k {
      MulMonotone(k', k, pg);
    } else {
      MulMonotone(k + 1, k', pg);
    }
  }

  /** A page starts at or below an address exactly when it is not past the address's page. */
  lemma PageBelow(pg: nat, q: nat, a: nat)
    requires IsPage(pg, q)
    ensures q <= a <==> q <= PageOf(pg, a)
  {
    PageAligned(pg, a);
    hide PageOf;
    if PageOf(pg, a) < q { Apart(pg, PageOf(pg, a), q); }
  }

  lemma LastPage(pg: nat, q: nat)
    requires PageSize(pg) && q < SPACE && IsPage(pg, q)
    ensures q <= SPACE - pg && IsPage(pg, SPACE - pg)
  {
    hide IsPage;
    Apart(pg, q, SPACE);
    PageBefore(pg, SPACE);
  }

  // ----- which ranges are handled as meant ---------------------------------------------

  /** Some byte of the range lies on the page. */
  ghost predicate Overlaps(pg: nat, r: Range, q: nat) {
    exists a: nat :: InRange(r, a) && q <= a < q + pg
  }

  predicate InRange(r: Range, a: nat) { r.p <= a < r.p + r.size && a < SPACE }

  /** The page after `k` rounds of the loop. */
  function PageAt(pg: nat, r: Range, k: nat): nat
    requires pg > 0
  {
    (StartPage(pg, r) + k * pg) % SPACE
  }

  ghost predicate LoopEnds(pg: nat, r: Range)
    requires pg > 0
  {
    r.size == 0 || exists k: nat :: PageAt(pg, r, k) > EndPage(pg, r)
  }

  /** The range ends before the last page. */
  predicate Sound(pg: nat, r: Range) { r.size == 0 || r.p + r.size <= SPACE - pg }

  lemma PageAtAligned(pg: nat, r: Range, k: nat)
    requires PageSize(pg)
    ensures IsPage(pg, PageAt(pg, r, k)) && PageAt(pg, r, k) <= SPACE - pg
  {
    PageAligned(pg, r.p);
    var start := StartPage(pg, r);
    var s := start + k * pg;
    PageIndex(pg, start);
    PageIndex(pg, SPACE);
    var a := start / pg + k;
    assert s == a * pg by { assert (start / pg + k) * pg == (start / pg) * pg + k * pg; }
    hide IsPage;
    Remainder(a, SPACE / pg, s / SPACE, pg, s);
    LastPage(pg, s % SPACE);
  }

  lemma Remainder(a: nat, b: nat, c: nat, pg: nat, s: nat)
    requires pg > 0 && s == a * pg && SPACE == b * pg && c == s / SPACE
    ensures IsPage(pg, s % SPACE)
  {
    hide IsPage;
    assert s % SPACE == s - c * SPACE;
    assert c * SPACE == (c * b) * pg by { assert c * (b * pg) == (c * b) * pg; }
    assert s % SPACE == (a - c * b) * pg by { assert (a - c * b) * pg == a * pg - (c * b) * pg; }
    if a - c * b < 0 { MulMonotone(a - c * b, -1, pg); }
    Multiple(pg, a - c * b);
  }

  /** From one page to a later one in whole rounds. */
  lemma Rounds(pg: nat, start: nat, end: nat) returns (k: nat)
    requires IsPage(pg, start) && IsPage(pg, end) && start <= end
    ensures start + k * pg == end
  {
    PageIndex(pg, start);
    PageIndex(pg, end);
    hide IsPage;
    var i, j := start / pg, end / pg;
    if j < i {
      MulMonotone(j + 1, i, pg);
    }
    k := j - i;
    assert (j - i) * pg == j * pg - i * pg;
  }

  /** The loop comes to its end exactly when that is not the last page. */
  lemma LoopEndsExactly(pg: nat, r: Range)
    requires PageSize(pg) && Addressable(r) && r.size > 0
    ensures LoopEnds(pg, r) <==> EndPage(pg, r) != SPACE - pg
  {
    hide IsPage, PageOf, PageAt, StartPage, EndPage;
    var start, end := StartPage(pg, r), EndPage(pg, r);
    Ends(pg, r);
    if end == SPACE - pg {
      AlwaysBelow(pg, r);
    } else {
      Apart(pg, end, SPACE - pg);
      if start > end {
        First(pg, r);
      } else {
        var k := Rounds(pg, start, end);
        PastEnd(pg, r, k, end);
      }
    }
  }

  lemma Ends(pg: nat, r: Range)
    requires PageSize(pg) && Addressable(r) && r.size > 0
    ensures IsPage(pg, StartPage(pg, r)) && IsPage(pg, EndPage(pg, r)) && IsPage(pg, SPACE - pg)
    ensures EndPage(pg, r) <= SPACE - pg
  {
    hide IsPage, PageOf;
    PageAligned(pg, r.p);
    PageAligned(pg, (r.p + r.size - 1) % SPACE);
    LastPage(pg, EndPage(pg, r));
  }

  lemma PastEnd(pg: nat, r: Range, k: nat, end: nat)
    requires pg > 0 && StartPage(pg, r) + k * pg == end && end + pg < SPACE
    ensures PageAt(pg, r, k + 1) == end + pg
  {
    hide StartPage;
    assert (k + 1) * pg == k * pg + pg;
  }

  lemma First(pg: nat, r: Range)
    requires pg > 0 && Addressable(r)
    ensures PageAt(pg, r, 0) == StartPage(pg, r)
  {
  }

  lemma AlwaysBelow(pg: nat, r: Range)
    requires PageSize(pg)
    ensures forall k: nat :: PageAt(pg, r, k) <= SPACE - pg
  {
    hide PageAt;
    forall k: nat ensures PageAt(pg, r, k) <= SPACE - pg { PageAtAligned(pg, r, k); }
  }

  lemma NoWrap(r: Range)
    requires r.size > 0 && r.p + r.size <= SPACE
    ensures (r.p + r.size - 1) % SPACE == r.p + r.size - 1
  {
  }

  /** A range that ends before the last page touches just the pages it overlaps. */
  lemma TouchedMeaning(pg: nat, r: Range, q: nat)
    requires PageSize(pg) && Addressable(r) && Sound(pg, r) && IsPage(pg, q)
    ensures Touched(pg, r, q) <==> Overlaps(pg, r, q)
  {
    hide IsPage, PageOf, Overlaps, InRange;
    if r.size > 0 {
      NoWrap(r);
      PageBelow(pg, q, r.p + r.size - 1);
      PageAligned(pg, r.p);
      if q < StartPage(pg, r) { Apart(pg, q, StartPage(pg, r)); }
    }
    OverlapsMeaning(pg, r, q);
  }

  lemma OverlapsMeaning(pg: nat, r: Range, q: nat)
    requires PageSize(pg) && Sound(pg, r)
    ensures Overlaps(pg, r, q) <==> r.size > 0 && r.p < q + pg && q < r.p + r.size
  {
    hide IsPage;
    if r.size > 0 && r.p < q + pg && q < r.p + r.size {
      var a := if q < r.p then r.p else q;
      assert InRange(r, a);
    }
  }

  /** The loop ends, having touched just what the range overlaps, exactly when the
      range ends before the last page. */
  lemma HandledExactly(pg: nat, r: Range)
    requires PageSize(pg) && Addressable(r)
    ensures LoopEnds(pg, r) && (forall q: nat | IsPage(pg, q) :: Touched(pg, r, q) <==> Overlaps(pg, r, q))
      <==> Sound(pg, r)
  {
    hide IsPage, PageOf, Touched, Overlaps, LoopEnds, EndPage;
    if Sound(pg, r) {
      SoundEnds(pg, r);
      forall q: nat | IsPage(pg, q) ensures Touched(pg, r, q) <==> Overlaps(pg, r, q) {
        TouchedMeaning(pg, r, q);
      }
    } else {
      LastOverlapped(pg, r);
      LoopEndsExactly(pg, r);
      if Touched(pg, r, SPACE - pg) { EndIsLast(pg, r); }
    }
  }

  lemma SoundEnds(pg: nat, r: Range)
    requires PageSize(pg) && Addressable(r) && Sound(pg, r)
    ensures LoopEnds(pg, r) && (r.size > 0 ==> EndPage(pg, r) < SPACE - pg)
  {
    hide IsPage, PageOf;
    if r.size > 0 {
      NoWrap(r);
      PageAligned(pg, r.p + r.size - 1);
      LoopEndsExactly(pg, r);
    }
  }

  lemma LastOverlapped(pg: nat, r: Range)
    requires PageSize(pg) && Addressable(r) && !Sound(pg, r)
    ensures IsPage(pg, SPACE - pg) && Overlaps(pg, r, SPACE - pg)
  {
    Multiple(pg, 0);
    hide IsPage;
    LastPage(pg, 0);
    var a := if r.p < SPACE - pg then SPACE - pg else r.p;
    assert InRange(r, a) && SPACE - pg <= a < SPACE - pg + pg;
  }

  /** A loop that touches the last page ends there. */
  lemma EndIsLast(pg: nat, r: Range)
    requires PageSize(pg) && Addressable(r) && Touched(pg, r, SPACE - pg)
    ensures EndPage(pg, r) == SPACE - pg
  {
    hide IsPage, PageOf;
    PageAligned(pg, (r.p + r.size - 1) % SPACE);
    LastPage(pg, EndPage(pg, r));
  }

  // ----- counts ----------------------------------------------------------------------

  type Histogram = map<nat, int>

  function Count(h: Histogram, q: nat): int { if q in h then h[q] else 0 }

  /** Pages nothing keeps locked have no entry. */
  ghost predicate Positive(h: Histogram) { forall q <- h :: h[q] > 0 }

  function Cover(pg: nat, r: Range, q: nat): nat
    requires pg > 0
  {
    if Touched(pg, r, q) then 1 else 0
  }

  /** How many of some ranges touch a page. */
  function Coverage(pg: nat, live: seq<Range>, q: nat): nat
    requires pg > 0
  {
    if live == [] then 0 else Coverage(pg, live[..|live| - 1], q) + Cover(pg, live[|live| - 1], q)
  }

  ghost predicate Tracks(pg: nat, h: Histogram, live: seq<Range>)
    requires pg > 0
  {
    Positive(h) && forall q: nat :: Count(h, q) == Coverage(pg, live, q)
  }

  /** One range more, or one range less, on the pages it touches. */
  ghost predicate Changed(pg: nat, h: Histogram, h': Histogram, r: Range, d: int)
    requires pg > 0
  {
    Positive(h') && forall q: nat :: Count(h', q) == Count(h, q) + d * Cover(pg, r, q)
  }

  ghost predicate AllCounted(pg: nat, h: Histogram, r: Range)
    requires pg > 0
  {
    forall q: nat :: Touched(pg, r, q) ==> q in h
  }

  lemma {:induction false} CoverageWithout(pg: nat, live: seq<Range>, i: nat, q: nat)
    requires pg > 0 && i < |live|
    ensures Coverage(pg, live, q) == Coverage(pg, live[..i] + live[i + 1..], q) + Cover(pg, live[i], q)
  {
    hide Cover;
    var front := live[..|live| - 1];
    if i == |front| {
      assert live[..i] + live[i + 1..] == front;
    } else {
      CoverageWithout(pg, front, i, q);
      var rest := live[..i] + live[i + 1..];
      assert rest[..|rest| - 1] == front[..i] + front[i + 1..];
    }
  }

  /** A live range can be unlocked: every page it touches has an entry. */
  lemma UnlockSafe(pg: nat, h: Histogram, live: seq<Range>, i: nat)
    requires pg > 0 && Tracks(pg, h, live) && i < |live|
    ensures AllCounted(pg, h, live[i])
  {
    hide Touched;
    forall q: nat | Touched(pg, live[i], q) ensures q in h {
      CoverageWithout(pg, live, i, q);
      assert Count(h, q) > 0;
    }
  }

  lemma LockTracks(pg: nat, h: Histogram, h': Histogram, live: seq<Range>, r: Range)
    requires pg > 0 && Tracks(pg, h, live) && Changed(pg, h, h', r, 1)
    ensures Tracks(pg, h', live + [r])
  {
    hide Cover, Count, Positive;
    forall q: nat ensures Count(h', q) == Coverage(pg, live + [r], q) {
      assert (live + [r])[..|live|] == live;
    }
  }

  lemma UnlockTracks(pg: nat, h: Histogram, h': Histogram, live: seq<Range>, i: nat)
    requires pg > 0 && i < |live| && Tracks(pg, h, live) && Changed(pg, h, h', live[i], -1)
    ensures Tracks(pg, h', live[..i] + live[i + 1..])
  {
    hide Cover, Count, Positive, Coverage;
    forall q: nat ensures Count(h', q) == Coverage(pg, live[..i] + live[i + 1..], q) {
      CoverageWithout(pg, live, i, q);
    }
  }

  // ----- runs --------------------------------------------------------------------------

  /** Lock a range, or unlock one of the live ones. */
  datatype Call = Lock(r: Range) | Unlock(i: nat)

  predicate Allowed(pg: nat, live: seq<Range>, call: Call) {
    match call
    case Lock(r) => Addressable(r) && Sound(pg, r)
    case Unlock(i) => i < |live|
  }

  function Next(live: seq<Range>, call: Call): seq<Range> {
    match call
    case Lock(r) => live + [r]
    case Unlock(i) => if i < |live| then live[..i] + live[i + 1..] else live
  }

  function Live(calls: seq<Call>): seq<Range> {
    if calls == [] then [] else Next(Live(calls[..|calls| - 1]), calls[|calls| - 1])
  }

  /** The histograms before and after every call of a run from an empty one. */
  ghost predicate Trace(pg: nat, calls: seq<Call>, hs: seq<Histogram>)
    requires pg > 0
  {
    && |hs| == |calls| + 1 && hs[0] == map[]
    && (forall k | 0 <= k < |calls| :: Allowed(pg, Live(calls[..k]), calls[k]))
    && (forall k | 0 <= k < |calls| :: Moves(pg, Live(calls[..k]), calls[k], hs[k], hs[k + 1]))
  }

  ghost predicate Moves(pg: nat, live: seq<Range>, call: Call, h: Histogram, h': Histogram)
    requires pg > 0
  {
    match call
    case Lock(r) => Changed(pg, h, h', r, 1)
    case Unlock(i) => i < |live| ==> Changed(pg, h, h', live[i], -1)
  }

  /** Whatever the interleaving, each count is the number of live ranges on the page. */
  lemma {:induction false} RunTracks(pg: nat, calls: seq<Call>, hs: seq<Histogram>, k: nat)
    requires pg > 0 && Trace(pg, calls, hs) && k <= |calls|
    ensures Tracks(pg, hs[k], Live(calls[..k]))
  {
    hide Changed, Coverage, Allowed;
    if k == 0 {
      NothingTracked(pg);
    } else {
      RunTracks(pg, calls, hs, k - 1);
      var live, call := Live(calls[..k - 1]), calls[k - 1];
      assert calls[..k][..k - 1] == calls[..k - 1];
      AllowedIndex(pg, live, call);
      hide Tracks;
      match call
      case Lock(r) => LockTracks(pg, hs[k - 1], hs[k], live, r);
      case Unlock(i) => UnlockTracks(pg, hs[k - 1], hs[k], live, i);
    }
  }

  lemma AllowedIndex(pg: nat, live: seq<Range>, call: Call)
    requires Allowed(pg, live, call)
    ensures call.Unlock? ==> call.i < |live|
  {
  }

  lemma NothingTracked(pg: nat)
    requires pg > 0
    ensures Tracks(pg, map[], [])
  {
  }

  /** The page is locked exactly while some live range has a byte on it. */
  lemma LockedWhileLive(pg: nat, h: Histogram, live: seq<Range>, q: nat)
    requires PageSize(pg) && IsPage(pg, q) && Tracks(pg, h, live)
    requires forall r <- live :: Addressable(r) && Sound(pg, r)
    ensures q in h <==> exists r <- live :: Overlaps(pg, r, q)
  {
    CoveragePositive(pg, live, q);
    hide Coverage, Overlaps, Touched, IsPage;
    assert Count(h, q) == Coverage(pg, live, q);
    forall r | r in live ensures Touched(pg, r, q) <==> Overlaps(pg, r, q) { TouchedMeaning(pg, r, q); }
  }

  lemma {:induction false} CoveragePositive(pg: nat, live: seq<Range>, q: nat)
    requires pg > 0
    ensures Coverage(pg, live, q) > 0 <==> exists r <- live :: Touched(pg, r, q)
  {
    hide Touched;
    if live != [] {
      var front, last := live[..|live| - 1], live[|live| - 1];
      CoveragePositive(pg, front, q);
      assert live == front + [last];
    }
  }

  /** Once everything is unlocked nothing is left. */
  lemma AllUnlocked(pg: nat, h: Histogram)
    requires pg > 0 && Tracks(pg, h, [])
    ensures h == map[]
  {
    forall q: nat ensures q !in h { assert Count(h, q) == Coverage(pg, [], q); }
    assert h.Keys == {};
  }

  // ----- one page at a time -----------------------------------------------------------

  /** The pages from one up to another have changed. */
  ghost predicate Partly(pg: nat, h: Histogram, h': Histogram, start: nat, page: nat, d: int) {
    Positive(h') && forall q: nat :: Count(h', q) == Count(h, q) + if IsPage(pg, q) && start <= q < page then d else 0
  }

  lemma PartlyNone(pg: nat, h: Histogram, start: nat, d: int)
    requires Positive(h)
    ensures Partly(pg, h, h, start, start, d)
  {
  }

  lemma Untouched(pg: nat, h: Histogram, r: Range, d: int)
    requires pg > 0 && Positive(h) && r.size == 0
    ensures Changed(pg, h, h, r, d)
  {
  }

  lemma PartlyStep(pg: nat, h: Histogram, h': Histogram, h'': Histogram, start: nat, page: nat, d: int)
    requires pg > 0 && Partly(pg, h, h', start, page, d) && IsPage(pg, page) && start <= page
    requires Positive(h'') && forall q: nat :: Count(h'', q) == Count(h', q) + if q == page then d else 0
    ensures Partly(pg, h, h'', start, page + pg, d)
  {
    hide Count, IsPage, Positive;
    forall q: nat
      ensures Count(h'', q) == Count(h, q) + if IsPage(pg, q) && start <= q < page + pg then d else 0
    {
      if IsPage(pg, q) && page < q < page + pg { Apart(pg, page, q); }
    }
  }

  lemma CountUp(pg: nat, h: Histogram, h': Histogram, start: nat, page: nat)
    requires Partly(pg, h, h', start, page, 1) && IsPage(pg, page) && start <= page
    ensures Positive(h') && Positive(h'[page := Count(h', page) + 1])
    ensures Partly(pg, h, h'[page := Count(h', page) + 1], start, page + pg, 1)
    ensures Count(h', page) == if page in h' then h'[page] else 0
  {
    PartlyStep(pg, h, h', h'[page := Count(h', page) + 1], start, page, 1);
  }

  /** The histogram with one count less, and without the page when that is zero. */
  function Less(h: Histogram, page: nat): Histogram
    requires page in h
  {
    if h[page] == 1 then h - {page} else h[page := h[page] - 1]
  }

  lemma CountDown(pg: nat, h: Histogram, h': Histogram, start: nat, page: nat)
    requires Partly(pg, h, h', start, page, -1) && IsPage(pg, page) && start <= page && page in h'
    ensures Positive(Less(h', page)) && Partly(pg, h, Less(h', page), start, page + pg, -1)
  {
    PartlyStep(pg, h, h', Less(h', page), start, page, -1);
  }

  lemma LoopStart(pg: nat, r: Range)
    requires PageSize(pg) && Addressable(r) && LoopEnds(pg, r) && r.size > 0
    ensures IsPage(pg, StartPage(pg, r)) && EndPage(pg, r) + pg <= SPACE - pg
  {
    hide IsPage, PageOf, LoopEnds;
    LoopEndsExactly(pg, r);
    Ends(pg, r);
    Apart(pg, EndPage(pg, r), SPACE - pg);
  }

  lemma PartlyDone(pg: nat, h: Histogram, h': Histogram, r: Range, page: nat, d: int)
    requires pg > 0 && r.size > 0 && IsPage(pg, page) && Partly(pg, h, h', StartPage(pg, r), page, d)
    requires page > EndPage(pg, r) && (page == StartPage(pg, r) || page <= EndPage(pg, r) + pg)
    ensures Changed(pg, h, h', r, d)
  {
    hide IsPage, Count, StartPage, EndPage, Positive;
    forall q: nat ensures Count(h', q) == Count(h, q) + d * Cover(pg, r, q) {
      if IsPage(pg, q) && q < page { Apart(pg, q, page); }
    }
  }

  /** A touched page not yet come to still has its entry. */
  lemma Found(pg: nat, h: Histogram, h': Histogram, r: Range, page: nat)
    requires pg > 0 && r.size > 0 && AllCounted(pg, h, r) && Positive(h)
    requires IsPage(pg, page) && StartPage(pg, r) <= page <= EndPage(pg, r)
    requires Partly(pg, h, h', StartPage(pg, r), page, -1)
    ensures page in h' && h'[page] > 0
  {
    hide IsPage, StartPage, EndPage;
    assert Touched(pg, r, page);
    assert Count(h', page) == Count(h, page);
  }

  // ----- the manager in place -------------------------------------------------------------

  class LockedPageManager {
    const pageSize: nat
    var histogram: Histogram
    /** The pages the operating system was told to keep. */
    var locked: set<nat>

    constructor (pg: nat)
      requires PageSize(pg)
      ensures pageSize == pg && Valid() && histogram == map[]
    {
      pageSize, histogram, locked := pg, map[], {};
    }

    ghost predicate Valid()
      reads this
    {
      PageSize(pageSize) && Positive(histogram) && locked == histogram.Keys
    }

    method LockRange(r: Range)
      requires Valid() && Addressable(r) && LoopEnds(pageSize, r)
      modifies this`histogram, this`locked
      ensures Valid() && Changed(pageSize, old(histogram), histogram, r, 1)
    {
      hide IsPage, PageOf, Positive, LoopEnds, Partly, Count, Changed, Wrap;
      if r.size == 0 {
        Untouched(pageSize, histogram, r, 1);
        return;
      }
      LoopStart(pageSize, r);
      var startPage, endPage := StartPage(pageSize, r), EndPage(pageSize, r);
      ghost var h := histogram;
      var page := startPage;
      PartlyNone(pageSize, h, startPage, 1);
      while page <= endPage
        invariant Valid() && IsPage(pageSize, page)
        invariant startPage <= page && (page == startPage || page <= endPage + pageSize)
        invariant Partly(pageSize, h, histogram, startPage, page, 1)
        decreases endPage + pageSize - page
      {
        CountUp(pageSize, h, histogram, startPage, page);
        if page !in histogram {
          locked := locked + {page};
          histogram := histogram[page := 1];
        } else {
          histogram := histogram[page := histogram[page] + 1];
        }
        PageAfter(pageSize, page);
        WrapSmall(page + pageSize);
        page := Wrap(page + pageSize);
      }
      PartlyDone(pageSize, h, histogram, r, page, 1);
    }

    method UnlockRange(r: Range)
      requires Valid() && Addressable(r) && LoopEnds(pageSize, r) && AllCounted(pageSize, histogram, r)
      modifies this`histogram, this`locked
      ensures Valid() && Changed(pageSize, old(histogram), histogram, r, -1)
    {
      hide IsPage, PageOf, Positive, LoopEnds, Partly, Count, Changed, AllCounted, Wrap;
      if r.size == 0 {
        Untouched(pageSize, histogram, r, -1);
        return;
      }
      LoopStart(pageSize, r);
      var startPage, endPage := StartPage(pageSize, r), EndPage(pageSize, r);
      ghost var h := histogram;
      var page := startPage;
      PartlyNone(pageSize, h, startPage, -1);
      while page <= endPage
        invariant Valid() && IsPage(pageSize, page)
        invariant startPage <= page && (page == startPage || page <= endPage + pageSize)
        invariant Partly(pageSize, h, histogram, startPage, page, -1)
        decreases endPage + pageSize - page
      {
        Found(pageSize, h, histogram, r, page);
        CountDown(pageSize, h, histogram, startPage, page);
        ghost var less := Less(histogram, page);
        histogram := histogram[page := histogram[page] - 1];
        if histogram[page] == 0 {
          locked := locked - {page};
          histogram := histogram - {page};
        }
        assert histogram == less;
        PageAfter(pageSize, page);
        WrapSmall(page + pageSize);
        page := Wrap(page + pageSize);
      }
      PartlyDone(pageSize, h, histogram, r, page, -1);
    }

    method GetLockedPageCount() returns (n: nat)
      requires Valid()
      ensures n == |locked|
    {
      n := |histogram|;
    }
  }
}
