/**
  What the summed overlaps mean: for disjoint descriptors they count the free bytes of the area.
*/
module SlideSoundness {
  import opened FiniteSets
  import opened Words
  import opened MemoryMap
  import opened SlideAnalysis

  ghost function Interval(lo: int, hi: int): (bytes: set<int>)
    requires lo <= hi
    ensures forall b :: b in bytes <==> lo <= b < hi
    ensures |bytes| == hi - lo
    decreases hi - lo
  {
    if lo == hi then {} else Interval(lo, hi - 1) + {hi - 1}
  }

  /** Descriptors whose bytes the analysis can count: an area that reaches 2^64 ends at 0 in 64 bits. */
  predicate Countable(d: Descriptor) {
    d.kind.Conventional? && d.End() < TWO_TO_THE_64
  }

  ghost predicate IsFree(descs: seq<Descriptor>, address: int) {
    exists d <- descs :: d.kind.Conventional? && d.Contains(address)
  }

  ghost predicate IsCounted(descs: seq<Descriptor>, address: int) {
    exists d <- descs :: Countable(d) && d.Contains(address)
  }

  /** Every byte of [lo, hi) can be counted. */
  ghost predicate AllCounted(descs: seq<Descriptor>, lo: int, hi: int) {
    forall b :: lo <= b < hi ==> IsCounted(descs, b)
  }

  ghost function Slice(d: Descriptor, lo: int, hi: int): set<int> {
    set b | lo <= b < hi && d.Contains(b)
  }

  ghost function Counted(descs: seq<Descriptor>, lo: int, hi: int): set<int> {
    set b | lo <= b < hi && IsCounted(descs, b)
  }

  lemma ShareIsSlice(d: Descriptor, lo: u64, hi: u64)
    requires Countable(d) && lo <= hi && d.pages != 0
    ensures Touches(d, lo, hi) ==> Share(d, lo, hi) == |Slice(d, lo, hi)|
    ensures !Touches(d, lo, hi) ==> Slice(d, lo, hi) == {}
  {
    MachineEndExact(d);
    if Touches(d, lo, hi) {
      var from := if d.physicalStart < lo then lo else d.physicalStart;
      var to := if d.End() > hi then hi else d.End();
      assert Slice(d, lo, hi) == Interval(from, to);
    }
  }

  lemma MachineEndExact(d: Descriptor)
    requires d.WellFormed() && d.pages != 0
    ensures MachineEnd(d) == if d.End() == TWO_TO_THE_64 then 0 else d.End()
    ensures Countable(d) ==> Wrap(d.pages * PAGE_SIZE) == d.pages * PAGE_SIZE
  {
  }

  ghost function SliceSize(d: Descriptor, lo: int, hi: int): nat {
    if Countable(d) then |Slice(d, lo, hi)| else 0
  }

  lemma CountedStep(descs: seq<Descriptor>, lo: int, hi: int)
    requires descs != []
    requires Disjoint(descs)
    ensures
      var n := |descs| - 1;
      |Counted(descs, lo, hi)| == |Counted(descs[..n], lo, hi)| + SliceSize(descs[n], lo, hi)
  {
    var n := |descs| - 1;
    assert descs == descs[..n] + [descs[n]];
    forall b | IsCounted(descs[..n], b)
      ensures !descs[n].Contains(b)
    {
      var i :| 0 <= i < n && Countable(descs[i]) && descs[i].Contains(b);
      assert DisjointPair(descs[i], descs[n]);
    }
    forall b
      ensures IsCounted(descs, b) <==> IsCounted(descs[..n], b) || (Countable(descs[n]) && descs[n].Contains(b))
    {
      if IsCounted(descs, b) {
        var d :| d in descs && Countable(d) && d.Contains(b);
      }
    }
    var added := if Countable(descs[n]) then Slice(descs[n], lo, hi) else {};
    assert Counted(descs, lo, hi) == Counted(descs[..n], lo, hi) + added;
    assert Counted(descs[..n], lo, hi) !! added;
  }

  lemma SurveyStep(descs: seq<Descriptor>, lo: u64, hi: u64)
    requires descs != [] && lo <= hi
    requires var d := descs[|descs| - 1]; d.WellFormed() && d.pages != 0
    requires !Survey(descs, lo, hi).blocked
    ensures
      var n := |descs| - 1;
      && !Survey(descs[..n], lo, hi).blocked
      && Survey(descs, lo, hi).available
         == Wrap(Survey(descs[..n], lo, hi).available + SliceSize(descs[n], lo, hi))
  {
    var d := descs[|descs| - 1];
    MachineEndExact(d);
    if Countable(d) {
      ShareIsSlice(d, lo, hi);
    }
  }

  lemma CountedFits(descs: seq<Descriptor>, lo: int, hi: int)
    requires lo <= hi
    ensures |Counted(descs, lo, hi)| <= hi - lo
    ensures |Counted(descs, lo, hi)| == hi - lo <==> AllCounted(descs, lo, hi)
  {
    var counted, all := Counted(descs, lo, hi), Interval(lo, hi);
    assert counted <= all;
    SubsetSize(counted, all);
    if AllCounted(descs, lo, hi) {
      assert counted == all;
    } else {
      var b :| lo <= b < hi && !IsCounted(descs, b);
      assert b in all && b !in counted;
    }
  }

  /** The measure argument: an unblocked survey has counted exactly the free bytes of [lo, hi). */
  lemma {:induction false} SurveyCountsFreeBytes(descs: seq<Descriptor>, lo: u64, hi: u64)
    requires WellFormed(descs) && Disjoint(descs) && HavePages(descs)
    requires lo <= hi
    requires !Survey(descs, lo, hi).blocked
    ensures Survey(descs, lo, hi).available == |Counted(descs, lo, hi)|
  {
    if descs == [] {
      assert Counted(descs, lo, hi) == {};
    } else {
      SurveyStep(descs, lo, hi);
      SurveyCountsFreeBytes(descs[..|descs| - 1], lo, hi);
      CountedStep(descs, lo, hi);
      CountedFits(descs, lo, hi);
      WrapSmall(|Counted(descs, lo, hi)|);
    }
  }

  /** A used descriptor that touches a non-empty area holds a byte of it. */
  lemma {:induction false} BlockedMeansUsedByte(descs: seq<Descriptor>, lo: u64, hi: u64) returns (b: int)
    requires WellFormed(descs) && HavePages(descs)
    requires lo < hi
    requires Survey(descs, lo, hi).blocked
    ensures lo <= b < hi
    ensures exists d <- descs :: !d.kind.Conventional? && d.Contains(b)
  {
    var n := |descs| - 1;
    var d := descs[n];
    if Survey(descs[..n], lo, hi).blocked {
      b := BlockedMeansUsedByte(descs[..n], lo, hi);
    } else {
      MachineEndExact(d);
      b := if d.physicalStart < lo then lo else d.physicalStart;
      assert d in descs && !d.kind.Conventional? && d.Contains(b);
    }
  }

  lemma UsedIsNotFree(descs: seq<Descriptor>, b: int)
    requires Disjoint(descs)
    requires exists d <- descs :: !d.kind.Conventional? && d.Contains(b)
    ensures !IsFree(descs, b)
  {
  }

  lemma VisibleProperties(descs: seq<Descriptor>)
    ensures HavePages(Visible(descs))
    ensures forall d <- Visible(descs) :: d in descs
    ensures Disjoint(descs) ==> Disjoint(Visible(descs))
  {
  }

  lemma VisibleIsWellFormed(descs: seq<Descriptor>)
    requires WellFormed(descs) && Disjoint(descs)
    ensures WellFormed(Visible(descs)) && Disjoint(Visible(descs)) && HavePages(Visible(descs))
  {
    VisibleProperties(descs);
  }

  lemma EndWraps(area: u64, sandyOrIvy: bool, slide: Slide)
    ensures
      var end := SlideStart(sandyOrIvy, slide) + area;
      SlideEnd(area, sandyOrIvy, slide) == if end < TWO_TO_THE_64 then end else end - TWO_TO_THE_64
  {
  }

  /**
    Exactly when a slide is listed, for a kernel area that fits below 2^64: every byte of it lies in a free
    descriptor that precedes the first descriptor without pages and ends below 2^64.
  */
  lemma SlideUsableExactly(descs: seq<Descriptor>, area: u64, sandyOrIvy: bool, slide: Slide)
    requires WellFormed(descs) && Disjoint(descs)
    requires 0 < area && SlideStart(sandyOrIvy, slide) + area < TWO_TO_THE_64
    ensures SlideUsable(descs, area, sandyOrIvy, slide) <==>
            AllCounted(Visible(descs), SlideStart(sandyOrIvy, slide), SlideStart(sandyOrIvy, slide) + area)
  {
    var lo, hi, seen := SlideStart(sandyOrIvy, slide), SlideEnd(area, sandyOrIvy, slide), Visible(descs);
    VisibleIsWellFormed(descs);
    EndWraps(area, sandyOrIvy, slide);
    hide Survey, WellFormed, HavePages, Disjoint, Visible, SlideStart, SlideEnd;
    CountedFits(seen, lo, hi);
    if Survey(seen, lo, hi).blocked {
      var b := BlockedMeansUsedByte(seen, lo, hi);
      UsedIsNotFree(seen, b);
      assert !IsCounted(seen, b);
    } else {
      SurveyCountsFreeBytes(seen, lo, hi);
      WrapSmall(lo + |Counted(seen, lo, hi)|);
    }
  }

  // Kernel areas whose end wraps around 2^64, and empty ones.

  lemma {:induction false} BlockedExactly(descs: seq<Descriptor>, lo: u64, hi: u64)
    ensures Survey(descs, lo, hi).blocked <==> exists d <- descs :: Touches(d, lo, hi) && !d.kind.Conventional?
  {
    if descs != [] {
      var n := |descs| - 1;
      BlockedExactly(descs[..n], lo, hi);
      assert descs == descs[..n] + [descs[n]];
    }
  }

  /** With a wrapped end, touching means holding every byte from below `hi` to beyond `lo`. */
  lemma TouchesWrapped(d: Descriptor, lo: u64, hi: u64)
    requires d.WellFormed() && d.pages != 0 && hi < lo
    ensures Touches(d, lo, hi) <==> d.physicalStart < hi && lo < d.End() < TWO_TO_THE_64
    ensures Touches(d, lo, hi) ==> Share(d, lo, hi) == hi - lo
  {
  }

  /** At most one descriptor touches a wrapped area; a free one contributes hi - lo, the wrapped size of the area. */
  lemma {:induction false} SurveyWrapped(descs: seq<Descriptor>, lo: u64, hi: u64)
    requires WellFormed(descs) && Disjoint(descs) && HavePages(descs) && hi < lo
    requires !Survey(descs, lo, hi).blocked
    ensures Survey(descs, lo, hi).available
            == if exists d <- descs :: Touches(d, lo, hi) then Wrap(hi - lo) else 0
  {
    if descs != [] {
      var n := |descs| - 1;
      assert descs == descs[..n] + [descs[n]];
      SurveyWrapped(descs[..n], lo, hi);
      TouchesWrapped(descs[n], lo, hi);
      if Touches(descs[n], lo, hi) {
        forall i | 0 <= i < n
          ensures !Touches(descs[i], lo, hi)
        {
          TouchesWrapped(descs[i], lo, hi);
          assert DisjointPair(descs[i], descs[n]);
        }
        assert forall d <- descs[..n] :: !Touches(d, lo, hi);
      }
    }
  }

  /** A free descriptor that reaches from below `hi` to beyond `lo`. */
  ghost predicate Spanned(descs: seq<Descriptor>, lo: u64, hi: u64) {
    exists d <- descs :: d.kind.Conventional? && d.physicalStart < hi && lo < d.End() < TWO_TO_THE_64
  }

  /** The byte and the one before it do not lie in the same used descriptor. */
  ghost predicate Unstraddled(descs: seq<Descriptor>, lo: u64) {
    forall d <- descs :: d.physicalStart < lo < d.End() < TWO_TO_THE_64 ==> d.kind.Conventional?
  }

  /** When a slide is listed, for every kernel area, said without the sums of the code. */
  ghost predicate Listed(descs: seq<Descriptor>, area: u64, sandyOrIvy: bool, slide: Slide) {
    var lo, seen := SlideStart(sandyOrIvy, slide), Visible(descs);
    if area == 0 then Unstraddled(seen, lo)
    else if lo + area < TWO_TO_THE_64 then AllCounted(seen, lo, lo + area)
    else Spanned(seen, lo, lo + area - TWO_TO_THE_64)
  }

  lemma EmptyAreaExactly(seen: seq<Descriptor>, lo: u64)
    requires WellFormed(seen) && Disjoint(seen) && HavePages(seen)
    ensures !Survey(seen, lo, lo).blocked <==> Unstraddled(seen, lo)
    ensures !Survey(seen, lo, lo).blocked ==> Survey(seen, lo, lo).available == 0
  {
    BlockedExactly(seen, lo, lo);
    forall d | d in seen
      ensures Touches(d, lo, lo) <==> d.physicalStart < lo < d.End() < TWO_TO_THE_64
    {
      MachineEndExact(d);
    }
    if !Survey(seen, lo, lo).blocked {
      SurveyCountsFreeBytes(seen, lo, lo);
      CountedFits(seen, lo, lo);
    }
  }

  lemma SpannedExactly(seen: seq<Descriptor>, lo: u64, hi: u64)
    requires WellFormed(seen) && HavePages(seen) && hi < lo
    ensures Spanned(seen, lo, hi) <==> exists d <- seen :: d.kind.Conventional? && Touches(d, lo, hi)
  {
  }

  /** Two descriptors that reach across the same gap overlap. */
  lemma TouchedOnce(seen: seq<Descriptor>, i: nat, j: nat, lo: u64, hi: u64)
    requires WellFormed(seen) && Disjoint(seen) && HavePages(seen) && hi < lo
    requires i < |seen| && j < |seen| && Touches(seen[i], lo, hi) && Touches(seen[j], lo, hi)
    ensures i == j
  {
  }

  lemma WrappedAreaExactly(seen: seq<Descriptor>, lo: u64, hi: u64)
    requires WellFormed(seen) && Disjoint(seen) && HavePages(seen) && hi < lo
    ensures !Survey(seen, lo, hi).blocked && Wrap(lo + Survey(seen, lo, hi).available) == hi <==> Spanned(seen, lo, hi)
  {
    hide Touches, Survey, WellFormed, HavePages, Disjoint, Spanned;
    BlockedExactly(seen, lo, hi);
    SpannedExactly(seen, lo, hi);
    if Survey(seen, lo, hi).blocked {
      var i :| 0 <= i < |seen| && Touches(seen[i], lo, hi) && !seen[i].kind.Conventional?;
      forall j | 0 <= j < |seen| && Touches(seen[j], lo, hi)
        ensures j == i
      {
        TouchedOnce(seen, i, j, lo, hi);
      }
    } else {
      SurveyWrapped(seen, lo, hi);
      WrapAdd(hi - lo, lo);
    }
  }

  /** Exactly when a slide is listed, for every disjoint map and every kernel area, wrapped or not. */
  lemma SlideListedExactly(descs: seq<Descriptor>, area: u64, sandyOrIvy: bool, slide: Slide)
    requires WellFormed(descs) && Disjoint(descs)
    ensures SlideUsable(descs, area, sandyOrIvy, slide) <==> Listed(descs, area, sandyOrIvy, slide)
  {
    var lo, hi, seen := SlideStart(sandyOrIvy, slide), SlideEnd(area, sandyOrIvy, slide), Visible(descs);
    VisibleProperties(descs);
    hide Survey, AllCounted, Spanned, Unstraddled, Disjoint, HavePages;
    if area == 0 {
      EmptyAreaExactly(seen, lo);
    } else if lo + area < TWO_TO_THE_64 {
      SlideUsableExactly(descs, area, sandyOrIvy, slide);
    } else {
      assert hi == lo + area - TWO_TO_THE_64;
      WrappedAreaExactly(seen, lo, hi);
    }
  }

  // What is available, usable slide or not.

  /** The descriptor is used and holds a byte of [lo, hi), or lies around it if it is empty or wraps around. */
  predicate BlocksArea(d: Descriptor, lo: u64, hi: u64) {
    !d.kind.Conventional? && d.physicalStart < hi && lo < d.End() < TWO_TO_THE_64
  }

  /** The descriptors before the first one that blocks the area. */
  function Unblocked(descs: seq<Descriptor>, lo: u64, hi: u64): (n: nat)
    ensures n <= |descs|
    ensures forall i :: 0 <= i < n ==> !BlocksArea(descs[i], lo, hi)
    ensures n < |descs| ==> BlocksArea(descs[n], lo, hi)
  {
    if descs == [] then 0
    else
      var n := |descs| - 1;
      if Unblocked(descs[..n], lo, hi) < n || BlocksArea(descs[n], lo, hi) then Unblocked(descs[..n], lo, hi)
      else |descs|
  }

  lemma BlocksExactly(d: Descriptor, lo: u64, hi: u64)
    requires d.WellFormed() && d.pages != 0
    ensures BlocksArea(d, lo, hi) <==> Touches(d, lo, hi) && !d.kind.Conventional?
  {
    MachineEndExact(d);
  }

  lemma {:induction false} UnblockedSurvey(descs: seq<Descriptor>, lo: u64, hi: u64)
    requires WellFormed(descs) && HavePages(descs)
    ensures
      var n := Unblocked(descs, lo, hi);
      && !Survey(descs[..n], lo, hi).blocked && (Survey(descs, lo, hi).blocked <==> n < |descs|)
      && Survey(descs, lo, hi).available == Survey(descs[..n], lo, hi).available
  {
    if descs == [] {
      assert descs[..0] == descs;
    } else {
      var n, m := Unblocked(descs, lo, hi), |descs| - 1;
      UnblockedSurvey(descs[..m], lo, hi);
      BlocksExactly(descs[m], lo, hi);
      if n == |descs| {
        assert descs[..n] == descs;
        assert descs[..m][..m] == descs[..m];
      } else {
        assert descs[..m][..n] == descs[..n];
      }
    }
  }

  lemma PartProperties(descs: seq<Descriptor>, n: nat)
    requires n <= |descs| && WellFormed(descs) && Disjoint(descs) && HavePages(descs)
    ensures WellFormed(descs[..n]) && Disjoint(descs[..n]) && HavePages(descs[..n])
  {
  }

  /**
    Bytes that can be had for a slide: the free bytes of its area before the first descriptor that blocks it, or, if
    the area wraps around, all of it or none.
  */
  ghost function Room(descs: seq<Descriptor>, area: u64, sandyOrIvy: bool, slide: Slide): int {
    var lo, seen := SlideStart(sandyOrIvy, slide), Visible(descs);
    if lo + area < TWO_TO_THE_64 then |Counted(seen[..Unblocked(seen, lo, lo + area)], lo, lo + area)|
    else if Spanned(seen, lo, lo + area - TWO_TO_THE_64) then area
    else 0
  }

  /** Blocked or not, the survey has counted the free bytes before the first descriptor that blocks the area. */
  lemma SurveyCountsRoom(seen: seq<Descriptor>, lo: u64, hi: u64)
    requires WellFormed(seen) && Disjoint(seen) && HavePages(seen) && lo <= hi
    ensures Survey(seen, lo, hi).available == |Counted(seen[..Unblocked(seen, lo, hi)], lo, hi)|
  {
    hide Survey, WellFormed, Disjoint, HavePages, Counted, BlocksArea;
    UnblockedSurvey(seen, lo, hi);
    PartProperties(seen, Unblocked(seen, lo, hi));
    SurveyCountsFreeBytes(seen[..Unblocked(seen, lo, hi)], lo, hi);
  }

  /** The available size is the room, for every disjoint map, slide and area, also when the slide is not usable. */
  lemma AvailableIsRoom(descs: seq<Descriptor>, area: u64, sandyOrIvy: bool, slide: Slide)
    requires WellFormed(descs) && Disjoint(descs)
    ensures Available(descs, area, sandyOrIvy, slide) == Room(descs, area, sandyOrIvy, slide)
  {
    var lo, hi, seen := SlideStart(sandyOrIvy, slide), SlideEnd(area, sandyOrIvy, slide), Visible(descs);
    VisibleIsWellFormed(descs);
    EndWraps(area, sandyOrIvy, slide);
    hide Survey, WellFormed, Disjoint, HavePages, Visible, Counted, Spanned, Unblocked, SlideStart, SlideEnd;
    if lo + area < TWO_TO_THE_64 {
      SurveyCountsRoom(seen, lo, hi);
    } else {
      WrappedRoom(seen, area, lo, hi);
    }
  }

  lemma WrappedRoom(seen: seq<Descriptor>, area: u64, lo: u64, hi: u64)
    requires WellFormed(seen) && Disjoint(seen) && HavePages(seen) && hi == lo + area - TWO_TO_THE_64
    ensures Survey(seen, lo, hi).available == if Spanned(seen, lo, hi) then area else 0
  {
    hide Touches, Survey, WellFormed, HavePages, Disjoint, Spanned;
    BlockedExactly(seen, lo, hi);
    SpannedExactly(seen, lo, hi);
    var n := Unblocked(seen, lo, hi);
    UnblockedSurvey(seen, lo, hi);
    PartProperties(seen, n);
    SurveyWrapped(seen[..n], lo, hi);
    if n < |seen| {
      BlockedGapIsEmpty(seen, n, lo, hi);
    } else {
      assert seen[..n] == seen;
      BlocksAll(seen, lo, hi);
    }
    assert Wrap(hi - lo) == area;
  }

  lemma BlocksAll(seen: seq<Descriptor>, lo: u64, hi: u64)
    requires WellFormed(seen) && HavePages(seen) && Unblocked(seen, lo, hi) == |seen|
    ensures forall d <- seen :: Touches(d, lo, hi) ==> d.kind.Conventional?
  {
    forall i | 0 <= i < |seen|
      ensures Touches(seen[i], lo, hi) ==> seen[i].kind.Conventional?
    {
      BlocksExactly(seen[i], lo, hi);
    }
  }

  /** If a used descriptor reaches across the gap, nothing else does. */
  lemma BlockedGapIsEmpty(seen: seq<Descriptor>, n: nat, lo: u64, hi: u64)
    requires WellFormed(seen) && Disjoint(seen) && HavePages(seen) && hi < lo
    requires n < |seen| && BlocksArea(seen[n], lo, hi)
    ensures forall d <- seen[..n] :: !Touches(d, lo, hi)
    ensures forall d <- seen :: Touches(d, lo, hi) ==> !d.kind.Conventional?
  {
    BlocksExactly(seen[n], lo, hi);
    forall j | 0 <= j < |seen| && Touches(seen[j], lo, hi)
      ensures j == n
    {
      TouchedOnce(seen, n, j, lo, hi);
    }
  }

  /** The least of the slides with the most room; slide 0 if there is no room anywhere. */
  ghost predicate IsRoomiest(descs: seq<Descriptor>, area: u64, sandyOrIvy: bool, fallback: Slide) {
    && (forall s: Slide ::
          Room(descs, area, sandyOrIvy, s) <= Room(descs, area, sandyOrIvy, fallback))
    && (forall s: Slide :: s < fallback ==>
          Room(descs, area, sandyOrIvy, s) < Room(descs, area, sandyOrIvy, fallback))
  }

  lemma FallbackIsRoomiest(descs: seq<Descriptor>, area: u64, sandyOrIvy: bool, fallback: Slide, size: u64)
    requires WellFormed(descs) && Disjoint(descs)
    requires IsFallback(descs, area, sandyOrIvy, TOTAL_SLIDE_NUM, fallback, size)
    ensures IsRoomiest(descs, area, sandyOrIvy, fallback)
  {
    hide Room, Available;
    forall s: Slide
      ensures Available(descs, area, sandyOrIvy, s) == Room(descs, area, sandyOrIvy, s)
    {
      AvailableIsRoom(descs, area, sandyOrIvy, s);
    }
    AvailableIsRoom(descs, area, sandyOrIvy, fallback);
  }

  ghost predicate AllFree(descs: seq<Descriptor>, lo: int, hi: int) {
    forall b :: lo <= b < hi ==> IsFree(descs, b)
  }

  /** A listed slide has its whole kernel area in free memory if and only if the area ends below 2^64. */
  lemma ListedSlideIsFree(descs: seq<Descriptor>, area: u64, sandyOrIvy: bool, slide: Slide)
    requires WellFormed(descs) && Disjoint(descs)
    requires 0 < area && SlideUsable(descs, area, sandyOrIvy, slide)
    ensures AllFree(descs, SlideStart(sandyOrIvy, slide), SlideStart(sandyOrIvy, slide) + area) <==>
            SlideStart(sandyOrIvy, slide) + area < TWO_TO_THE_64
  {
    var lo := SlideStart(sandyOrIvy, slide);
    SlideListedExactly(descs, area, sandyOrIvy, slide);
    VisibleProperties(descs);
    if lo + area < TWO_TO_THE_64 {
      forall b | lo <= b < lo + area
        ensures IsFree(descs, b)
      {
        assert IsCounted(Visible(descs), b);
      }
    } else {
      assert !IsFree(descs, TWO_TO_THE_64);
      assert lo + area > TWO_TO_THE_64;
    }
  }

  /** A map whose runtime pages make the kernel area end wrap around. */
  const WRAPPING_MAP: seq<Descriptor> :=
    [Descriptor(Conventional, 0, 0, 0x200, false, 0),
     Descriptor(MemoryMappedIo, 0x808_0000, 0, 0xF_FFFF_FFFF_7F80, true, 0)]

  lemma WrappingMap()
    ensures WellFormed(WRAPPING_MAP) && Disjoint(WRAPPING_MAP) && HavePages(WRAPPING_MAP)
    ensures EstimatedKernelArea(WRAPPING_MAP) == TWO_TO_THE_64 - 0x8_0000
    ensures Visible(WRAPPING_MAP) == WRAPPING_MAP
  {
    var first := WRAPPING_MAP[..1];
    assert first[..0] == [] && WRAPPING_MAP[..|WRAPPING_MAP| - 1] == first;
    assert RuntimePages(first) == 0;
    assert RuntimePages(WRAPPING_MAP) == 0xF_FFFF_FFFF_7F80;
  }

  /** On that map slide 0 is listed although its area leaves the 2 MB of free memory at byte 0x20_0000. */
  lemma WrappedSlideIsNotFree()
    ensures SlideUsable(WRAPPING_MAP, EstimatedKernelArea(WRAPPING_MAP), false, 0)
    ensures SlideStart(false, 0) <= 0x20_0000 < SlideStart(false, 0) + EstimatedKernelArea(WRAPPING_MAP)
    ensures !IsFree(WRAPPING_MAP, 0x20_0000)
  {
    WrappingMap();
    SlideListedExactly(WRAPPING_MAP, EstimatedKernelArea(WRAPPING_MAP), false, 0);
    assert WRAPPING_MAP[0] in WRAPPING_MAP && WRAPPING_MAP[0].End() == 0x20_0000;
  }

  /** The converse, when every descriptor has pages and no free one reaches the end of the address space. */
  lemma FreeSlideIsListed(descs: seq<Descriptor>, area: u64, sandyOrIvy: bool, slide: Slide)
    requires WellFormed(descs) && Disjoint(descs) && HavePages(descs)
    requires forall d <- descs :: d.kind.Conventional? ==> d.End() < TWO_TO_THE_64
    requires 0 < area && SlideStart(sandyOrIvy, slide) + area < TWO_TO_THE_64
    requires forall b :: SlideStart(sandyOrIvy, slide) <= b < SlideEnd(area, sandyOrIvy, slide) ==> IsFree(descs, b)
    ensures SlideUsable(descs, area, sandyOrIvy, slide)
  {
    assert Visible(descs) == descs;
    forall b | SlideStart(sandyOrIvy, slide) <= b < SlideEnd(area, sandyOrIvy, slide)
      ensures IsCounted(descs, b)
    {
      assert IsFree(descs, b);
      var d :| d in descs && d.kind.Conventional? && d.Contains(b);
      assert Countable(d);
    }
    SlideUsableExactly(descs, area, sandyOrIvy, slide);
  }

  /** A leading descriptor without pages hides the whole map: 4 GB of free memory yield no slide at all. */
  lemma ZeroPagesHideFreeMemory(sandyOrIvy: bool, slide: Slide)
    ensures
      var descs := [Descriptor(Reserved, 0, 0, 0, false, 0), Descriptor(Conventional, 0, 0, 0x10_0000, false, 0)];
      && WellFormed(descs) && Disjoint(descs)
      && (forall b :: SlideStart(sandyOrIvy, slide) <= b < SlideEnd(ESTIMATED_KERNEL_SIZE, sandyOrIvy, slide)
                      ==> IsFree(descs, b))
      && !SlideUsable(descs, ESTIMATED_KERNEL_SIZE, sandyOrIvy, slide)
  {
  }
}
