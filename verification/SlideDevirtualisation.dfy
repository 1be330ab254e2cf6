/**
  Devirtualisation and slide analysis together: the map filtered through DevirtualiseMmio loses no slide.
*/
module SlideDevirtualisation {
  import opened Words
  import opened MemoryMap
  import opened SlideAnalysis
  import opened SlideSoundness
  import opened DevirtualiseMmio

  /** The kernel area shrinks by exactly the saved pages, as the firmware counts in 64 bits. */
  lemma KernelAreaShrinks(descs: seq<Descriptor>, whitelist: seq<u64>)
    ensures EstimatedKernelArea(Stripped(descs, whitelist))
            == Wrap(EstimatedKernelArea(descs) - PagesSaved(descs, whitelist) * PAGE_SIZE)
  {
    RuntimePagesSaved(descs, whitelist);
    KernelAreaModulo(descs);
    KernelAreaModulo(Stripped(descs, whitelist));
    WrapAdd(RuntimePages(descs) * PAGE_SIZE + ESTIMATED_KERNEL_SIZE, -(PagesSaved(descs, whitelist) * PAGE_SIZE));
  }

  lemma KernelAreaModulo(descs: seq<Descriptor>)
    ensures EstimatedKernelArea(descs) == Wrap(RuntimePages(descs) * PAGE_SIZE + ESTIMATED_KERNEL_SIZE)
  {
    var pages := RuntimePages(descs);
    var q := pages / TWO_TO_THE_64;
    assert Wrap(pages) * PAGE_SIZE == pages * PAGE_SIZE + (-q * PAGE_SIZE) * TWO_TO_THE_64;
    WrapShift(pages * PAGE_SIZE, -q * PAGE_SIZE);
    WrapAdd(pages * PAGE_SIZE, ESTIMATED_KERNEL_SIZE);
  }

  /** The kernel and all runtime pages fit below 2^64 for this slide. */
  predicate AreaFits(descs: seq<Descriptor>, sandyOrIvy: bool, slide: Slide) {
    SlideStart(sandyOrIvy, slide) + RuntimePages(descs) * PAGE_SIZE + ESTIMATED_KERNEL_SIZE < TWO_TO_THE_64
  }

  lemma VisibleSame(descs: seq<Descriptor>, whitelist: seq<u64>)
    ensures VisibleCount(Stripped(descs, whitelist)) == VisibleCount(descs)
  {
    var after := Stripped(descs, whitelist);
    assert forall i :: 0 <= i < |descs| ==> after[i].pages == descs[i].pages;
    var n, m := VisibleCount(descs), VisibleCount(after);
    assert n < |descs| ==> after[n].pages == 0;
    assert m < |descs| ==> descs[m].pages == 0;
  }

  lemma StrippedKeepsShape(descs: seq<Descriptor>, whitelist: seq<u64>)
    requires WellFormed(descs) && Disjoint(descs)
    ensures WellFormed(Stripped(descs, whitelist)) && Disjoint(Stripped(descs, whitelist))
  {
    var after := Stripped(descs, whitelist);
    assert forall i :: 0 <= i < |descs| ==> descs[i] in descs && after[i].End() == descs[i].End();
    forall i, j | 0 <= i < j < |after|
      ensures DisjointPair(after[i], after[j])
    {
      assert DisjointPair(descs[i], descs[j]);
    }
  }

  lemma StrippedKeepsFree(descs: seq<Descriptor>, whitelist: seq<u64>, b: int)
    requires IsCounted(Visible(descs), b)
    ensures IsCounted(Visible(Stripped(descs, whitelist)), b)
  {
    VisibleSame(descs, whitelist);
    var i :| 0 <= i < VisibleCount(descs) && Countable(descs[i]) && descs[i].Contains(b);
    assert Visible(Stripped(descs, whitelist))[i] == descs[i];
  }

  lemma AreaShrinksExactly(descs: seq<Descriptor>, whitelist: seq<u64>, sandyOrIvy: bool, slide: Slide)
    requires AreaFits(descs, sandyOrIvy, slide)
    ensures
      var area := EstimatedKernelArea(descs);
      && 0 < area && SlideStart(sandyOrIvy, slide) + area < TWO_TO_THE_64
      && EstimatedKernelArea(Stripped(descs, whitelist)) == area - PagesSaved(descs, whitelist) * PAGE_SIZE
      && ESTIMATED_KERNEL_SIZE <= EstimatedKernelArea(Stripped(descs, whitelist))
  {
    RuntimePagesSaved(descs, whitelist);
    KernelAreaModulo(descs);
    KernelAreaModulo(Stripped(descs, whitelist));
    WrapSmall(RuntimePages(descs) * PAGE_SIZE + ESTIMATED_KERNEL_SIZE);
    WrapSmall(RuntimePages(Stripped(descs, whitelist)) * PAGE_SIZE + ESTIMATED_KERNEL_SIZE);
  }

  /** Devirtualising never loses a slide, with or without descriptors that have no pages. */
  lemma DevirtualisingKeepsSlides(descs: seq<Descriptor>, whitelist: seq<u64>, sandyOrIvy: bool, slide: Slide)
    requires WellFormed(descs) && Disjoint(descs)
    requires AreaFits(descs, sandyOrIvy, slide)
    requires SlideUsable(descs, EstimatedKernelArea(descs), sandyOrIvy, slide)
    ensures
      var after := Stripped(descs, whitelist);
      SlideUsable(after, EstimatedKernelArea(after), sandyOrIvy, slide)
  {
    var after := Stripped(descs, whitelist);
    AreaShrinksExactly(descs, whitelist, sandyOrIvy, slide);
    StrippedKeepsShape(descs, whitelist);
    WiderSlideStillUsable(descs, after, whitelist, sandyOrIvy, slide);
  }

  /** The analysis does not look at the attribute: for any area it lists the same slides before and after. */
  lemma StrippedListsSame(descs: seq<Descriptor>, whitelist: seq<u64>, area: u64, sandyOrIvy: bool, slide: Slide)
    ensures SlideUsable(Stripped(descs, whitelist), area, sandyOrIvy, slide)
            <==> SlideUsable(descs, area, sandyOrIvy, slide)
  {
    var seen, after := Visible(descs), Visible(Stripped(descs, whitelist));
    VisibleSame(descs, whitelist);
    assert after == Stripped(seen, whitelist);
    StrippedSurvey(seen, whitelist, SlideStart(sandyOrIvy, slide), SlideEnd(area, sandyOrIvy, slide));
  }

  lemma {:induction false} StrippedSurvey(descs: seq<Descriptor>, whitelist: seq<u64>, lo: u64, hi: u64)
    ensures Survey(Stripped(descs, whitelist), lo, hi) == Survey(descs, lo, hi)
  {
    if descs != [] {
      var n := |descs| - 1;
      assert Stripped(descs, whitelist)[..n] == Stripped(descs[..n], whitelist);
      StrippedSurvey(descs[..n], whitelist, lo, hi);
    }
  }

  /**
    Exactly when a listed slide stays listed: the bytes of the new area that the old one did not already show to be free
    are free too, or, if the new area wraps around, one free descriptor spans from below its end to beyond its start.
  */
  lemma DevirtualisingKeepsExactly(descs: seq<Descriptor>, whitelist: seq<u64>, sandyOrIvy: bool, slide: Slide)
    requires WellFormed(descs) && Disjoint(descs)
    requires SlideUsable(descs, EstimatedKernelArea(descs), sandyOrIvy, slide)
    ensures
      var lo, after := SlideStart(sandyOrIvy, slide), Stripped(descs, whitelist);
      var area, newArea := EstimatedKernelArea(descs), EstimatedKernelArea(after);
      SlideUsable(after, newArea, sandyOrIvy, slide) <==>
      if lo + newArea < TWO_TO_THE_64 then
        AllCounted(Visible(descs), if lo + area < TWO_TO_THE_64 then lo + area else lo, lo + newArea)
      else
        Spanned(Visible(descs), lo, lo + newArea - TWO_TO_THE_64)
  {
    var lo, newArea := SlideStart(sandyOrIvy, slide), EstimatedKernelArea(Stripped(descs, whitelist));
    StrippedListsSame(descs, whitelist, newArea, sandyOrIvy, slide);
    SlideListedExactly(descs, newArea, sandyOrIvy, slide);
    SlideListedExactly(descs, EstimatedKernelArea(descs), sandyOrIvy, slide);
    if newArea == 0 {
      VisibleProperties(descs);
      ListedIsUnstraddled(descs, EstimatedKernelArea(descs), sandyOrIvy, slide);
    }
  }

  /** Whatever the area, no used descriptor lies around the start of a listed slide. */
  lemma ListedIsUnstraddled(descs: seq<Descriptor>, area: u64, sandyOrIvy: bool, slide: Slide)
    requires Disjoint(Visible(descs)) && Listed(descs, area, sandyOrIvy, slide)
    ensures Unstraddled(Visible(descs), SlideStart(sandyOrIvy, slide))
  {
    var lo, seen := SlideStart(sandyOrIvy, slide), Visible(descs);
    if area > 0 {
      if lo + area >= TWO_TO_THE_64 {
        var d :| d in seen && d.kind.Conventional? && d.physicalStart < lo + area - TWO_TO_THE_64
                 && lo < d.End() < TWO_TO_THE_64;
        assert Countable(d) && d.Contains(lo);
      }
      assert IsCounted(seen, lo);
      CountedUnstraddled(seen, lo);
    }
  }

  lemma CountedUnstraddled(seen: seq<Descriptor>, lo: u64)
    requires Disjoint(seen) && IsCounted(seen, lo)
    ensures Unstraddled(seen, lo)
  {
  }

  /** On the wrapping map devirtualising loses slide 0. */
  lemma DevirtualisingLosesSlide()
    ensures SlideUsable(WRAPPING_MAP, EstimatedKernelArea(WRAPPING_MAP), false, 0)
    ensures
      var after := Stripped(WRAPPING_MAP, []);
      EstimatedKernelArea(after) == ESTIMATED_KERNEL_SIZE && !SlideUsable(after, EstimatedKernelArea(after), false, 0)
  {
    WrappedSlideIsNotFree();
    WrappingMap();
    var after := Stripped(WRAPPING_MAP, []);
    RuntimePagesSaved(WRAPPING_MAP, []);
    assert WRAPPING_MAP[..1][..0] == [] && WRAPPING_MAP[..2] == WRAPPING_MAP;
    assert PagesSaved(WRAPPING_MAP[..1], []) == 0;
    assert PagesSaved(WRAPPING_MAP, []) == 0xF_FFFF_FFFF_7F80;
    StrippedListsSame(WRAPPING_MAP, [], ESTIMATED_KERNEL_SIZE, false, 0);
    SlideListedExactly(WRAPPING_MAP, ESTIMATED_KERNEL_SIZE, false, 0);
    assert !IsCounted(WRAPPING_MAP, 0x20_0000);
  }

  /** A slide listed for the devirtualised map, its area below 2^64, lies in memory free in the firmware's own map. */
  lemma FilteredSlideIsFree(descs: seq<Descriptor>, whitelist: seq<u64>, area: u64, sandyOrIvy: bool, slide: Slide)
    requires WellFormed(descs) && Disjoint(descs) && 0 < area
    requires SlideUsable(Stripped(descs, whitelist), area, sandyOrIvy, slide)
    ensures AllFree(descs, SlideStart(sandyOrIvy, slide), SlideStart(sandyOrIvy, slide) + area) <==>
            SlideStart(sandyOrIvy, slide) + area < TWO_TO_THE_64
  {
    StrippedListsSame(descs, whitelist, area, sandyOrIvy, slide);
    ListedSlideIsFree(descs, area, sandyOrIvy, slide);
  }

  lemma WiderSlideStillUsable(
    descs: seq<Descriptor>, after: seq<Descriptor>, whitelist: seq<u64>, sandyOrIvy: bool, slide: Slide)
    requires after == Stripped(descs, whitelist)
    requires WellFormed(descs) && Disjoint(descs) && WellFormed(after) && Disjoint(after)
    requires 0 < EstimatedKernelArea(after) <= EstimatedKernelArea(descs)
    requires SlideStart(sandyOrIvy, slide) + EstimatedKernelArea(descs) < TWO_TO_THE_64
    requires SlideUsable(descs, EstimatedKernelArea(descs), sandyOrIvy, slide)
    ensures SlideUsable(after, EstimatedKernelArea(after), sandyOrIvy, slide)
  {
    SlideUsableExactly(descs, EstimatedKernelArea(descs), sandyOrIvy, slide);
    SlideUsableExactly(after, EstimatedKernelArea(after), sandyOrIvy, slide);
    var lo := SlideStart(sandyOrIvy, slide);
    forall b | lo <= b < lo + EstimatedKernelArea(after)
      ensures IsCounted(Visible(after), b)
    {
      assert IsCounted(Visible(descs), b);
      StrippedKeepsFree(descs, whitelist, b);
    }
  }
}
