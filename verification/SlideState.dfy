/** The slide part of the boot compatibility context and the decision whether to pass a custom slide. */
module SlideState {
  import opened Wrappers
  import opened Words
  import opened MemoryMap
  import opened SlideAnalysis
  import opened SlideSoundness
  import opened SlideDevirtualisation
  import DevirtualiseMmio
  import SlidePrinting

  /** The map the analysis works on: devirtualised first when that setting gives a whitelist. */
  function Filtered(descs: seq<Descriptor>, filter: Option<seq<u64>>): seq<Descriptor> {
    match filter
    case None => descs
    case Some(whitelist) => DevirtualiseMmio.Stripped(descs, whitelist)
  }

  /** Every kernel area of these slides that ends below 2^64 is free memory. */
  ghost predicate SlidesFree(descs: seq<Descriptor>, area: u64, sandyOrIvy: bool, slides: seq<Slide>) {
    forall slide <- slides :: SlideStart(sandyOrIvy, slide) + area < TWO_TO_THE_64 ==>
      AllFree(descs, SlideStart(sandyOrIvy, slide), SlideStart(sandyOrIvy, slide) + area)
  }

  /** Slides usable on the filtered map are free on the map it was made from. */
  lemma ListedSlidesFree(descs: seq<Descriptor>, filter: Option<seq<u64>>, area: u64, sandyOrIvy: bool)
    requires WellFormed(descs) && Disjoint(descs)
    ensures SlidesFree(descs, area, sandyOrIvy,
                       UsableSlides(Filtered(descs, filter), area, sandyOrIvy, TOTAL_SLIDE_NUM))
  {
    var slides := UsableSlides(Filtered(descs, filter), area, sandyOrIvy, TOTAL_SLIDE_NUM);
    forall slide | slide in slides && SlideStart(sandyOrIvy, slide) + area < TWO_TO_THE_64
      ensures AllFree(descs, SlideStart(sandyOrIvy, slide), SlideStart(sandyOrIvy, slide) + area)
    {
      if area > 0 {
        if filter.Some? {
          FilteredSlideIsFree(descs, filter.value, area, sandyOrIvy, slide);
        } else {
          ListedSlideIsFree(descs, area, sandyOrIvy, slide);
        }
      }
    }
  }

  /** Adds the part of a free descriptor inside [lo, hi), step by step in 64 bits. */
  method AddShare(before: u64, d: Descriptor, lo: u64, hi: u64) returns (available: u64)
    ensures available == Wrap(before + Share(d, lo, hi))
  {
    var total := before + Wrap(d.pages * PAGE_SIZE);
    available := Wrap(total);
    if d.physicalStart < lo {
      WrapAdd(total, d.physicalStart - lo);
      total := total + (d.physicalStart - lo);
      available := Wrap(available - (lo - d.physicalStart));
    }
    if MachineEnd(d) > hi {
      WrapAdd(total, hi - MachineEnd(d));
      available := Wrap(available - (MachineEnd(d) - hi));
    }
  }

  method EstimateKernelArea(descs: array<Descriptor>) returns (area: u64)
    ensures area == EstimatedKernelArea(descs[..])
  {
    var pages := CountRuntimePages(descs);
    area := Wrap(Wrap(pages * PAGE_SIZE) + ESTIMATED_KERNEL_SIZE);
  }

  class SlideSupport {
    var hasMemoryMapAnalysis: bool
    var hasSandyOrIvy: bool
    var estimatedKernelArea: u64
    var validSlideCount: nat
    const validSlides: array<Slide>

    constructor ()
      ensures fresh(validSlides) && Valid()
      ensures !hasMemoryMapAnalysis && validSlideCount == 0
    {
      hasMemoryMapAnalysis, hasSandyOrIvy := false, false;
      estimatedKernelArea, validSlideCount := 0, 0;
      validSlides := new Slide[TOTAL_SLIDE_NUM];
    }

    ghost predicate Valid()
      reads this
    {
      validSlides.Length == TOTAL_SLIDE_NUM && validSlideCount <= TOTAL_SLIDE_NUM
    }

    ghost function Slides(): seq<Slide>
      requires Valid()
      reads this, validSlides
    {
      validSlides[..validSlideCount]
    }

    /** Decides on a custom slide once the usable slides are known, falling back when there is none. */
    method Decide(fallback: Slide) returns (custom: bool, tokens: seq<SlidePrinting.Token>)
      requires Valid()
      modifies this`validSlideCount, validSlides
      ensures Valid()
      ensures custom == (old(validSlideCount) != TOTAL_SLIDE_NUM)
      ensures Slides() == if old(validSlideCount) == 0 then [fallback] else old(Slides())
      ensures 0 < old(validSlideCount) < TOTAL_SLIDE_NUM ==> SlidePrinting.Decode(tokens) == Slides()
    {
      tokens := [];
      if validSlideCount == TOTAL_SLIDE_NUM {
        return false, tokens;
      }
      if validSlideCount == 0 {
        validSlides[validSlideCount] := fallback;
        validSlideCount := validSlideCount + 1;
        return true, tokens;
      }
      tokens := SlidePrinting.Print(validSlides[..validSlideCount]);
      return true, tokens;
    }

    /** Surveys the map for one slide, walking the descriptors as the firmware does. */
    method CheckSlide(descs: array<Descriptor>, slide: Slide) returns (supported: bool, available: u64)
      ensures supported == SlideUsable(descs[..], estimatedKernelArea, hasSandyOrIvy, slide)
      ensures available == Available(descs[..], estimatedKernelArea, hasSandyOrIvy, slide)
    {
      hide Survey, Touches, Share, SlideStart, SlideEnd, VisibleCount;
      SurveyStarts(descs[..0], SlideStart(hasSandyOrIvy, slide), SlideEnd(estimatedKernelArea, hasSandyOrIvy, slide));
      var lo := SlideStart(hasSandyOrIvy, slide);
      var hi := SlideEnd(estimatedKernelArea, hasSandyOrIvy, slide);
      ghost var visible := VisibleCount(descs[..]);
      available := 0;
      supported := true;
      var index, current := 0, 0;
      while index < descs.Length && supported
        invariant 0 <= index <= descs.Length
        invariant supported ==> current == if index < visible then index else visible
        invariant 0 <= current <= visible
        invariant supported ==> Survey(descs[..current], lo, hi) == Coverage(available, false)
        invariant !supported ==> Survey(descs[..visible], lo, hi) == Coverage(available, true)
        decreases descs.Length - index, supported
      {
        var d := descs[current];
        if d.pages == 0 {
          // The walk does not advance past a descriptor without pages.
          index := index + 1;
        } else {
          SurveyNext(descs[..], current, lo, hi);
          assert descs[..][..current] == descs[..current] && descs[..][..current + 1] == descs[..current + 1];
          if Touches(d, lo, hi) && !d.kind.Conventional? {
            assert descs[..visible][..current + 1] == descs[..current + 1];
            SurveyBlockedStays(descs[..visible], current + 1, lo, hi);
            supported := false;
          } else {
            if Touches(d, lo, hi) {
              available := AddShare(available, d, lo, hi);
            }
            index, current := index + 1, current + 1;
          }
        }
      }
      assert descs[..][..visible] == descs[..visible];
      if Wrap(lo + available) != hi {
        supported := false;
      }
    }

    /**
      The recorded analysis is that of `descs`: all usable slides, or the roomiest one when none is usable, which on a
      disjoint map is the one with the most free bytes before anything used.
    */
    ghost predicate Analysed(descs: seq<Descriptor>, sandyOrIvy: bool)
      requires Valid()
      reads this, validSlides
    {
      var usable := UsableSlides(descs, EstimatedKernelArea(descs), sandyOrIvy, TOTAL_SLIDE_NUM);
      && hasMemoryMapAnalysis
      && hasSandyOrIvy == sandyOrIvy
      && estimatedKernelArea == EstimatedKernelArea(descs)
      && if usable != [] then Slides() == usable
         else
           && validSlideCount == 1
           && (exists size :: IsFallback(descs, estimatedKernelArea, sandyOrIvy, TOTAL_SLIDE_NUM, validSlides[0], size))
           && (WellFormed(descs) && Disjoint(descs) ==>
                 IsRoomiest(descs, estimatedKernelArea, sandyOrIvy, validSlides[0]))
    }

    /** Surveys all slides, collecting the usable ones and the roomiest one. */
    method SurveySlides(descs: array<Descriptor>) returns (fallback: Slide, size: u64)
      requires Valid()
      modifies this`validSlideCount, validSlides
      ensures Valid()
      ensures Slides() == UsableSlides(descs[..], estimatedKernelArea, hasSandyOrIvy, TOTAL_SLIDE_NUM)
      ensures IsFallback(descs[..], estimatedKernelArea, hasSandyOrIvy, TOTAL_SLIDE_NUM, fallback, size)
    {
      fallback, size := 0, 0;
      validSlideCount := 0;
      ghost var view, area, sandyOrIvy := descs[..], estimatedKernelArea, hasSandyOrIvy;
      for slide := 0 to TOTAL_SLIDE_NUM
        invariant Valid() && validSlideCount <= slide
        invariant descs[..] == view && estimatedKernelArea == area && hasSandyOrIvy == sandyOrIvy
        invariant Slides() == UsableSlides(view, area, sandyOrIvy, slide)
        invariant IsFallback(view, area, sandyOrIvy, slide, fallback, size)
      {
        var supported, available := CheckSlide(descs, slide);
        FallbackStep(view, area, sandyOrIvy, slide, fallback, size);
        if available > size {
          fallback, size := slide, available;
        }
        if supported {
          AddSlide(slide);
        }
      }
    }

    method AddSlide(slide: Slide)
      requires Valid() && validSlideCount < TOTAL_SLIDE_NUM
      modifies this`validSlideCount, validSlides
      ensures Valid()
      ensures Slides() == old(Slides()) + [slide]
    {
      validSlides[validSlideCount] := slide;
      validSlideCount := validSlideCount + 1;
    }

    lemma AnalysedSlides(descs: seq<Descriptor>, sandyOrIvy: bool)
      requires Valid() && Analysed(descs, sandyOrIvy)
      ensures
        var usable := UsableSlides(descs, estimatedKernelArea, sandyOrIvy, TOTAL_SLIDE_NUM);
        usable != [] ==> Slides() == usable
    {
    }

    /** The analysis of a map that is devirtualised already. */
    method Analyse(descs: array<Descriptor>, sandyOrIvy: bool) returns (custom: bool, tokens: seq<SlidePrinting.Token>)
      requires Valid()
      modifies this, validSlides
      ensures Valid() && Analysed(descs[..], sandyOrIvy) && custom == (validSlideCount < TOTAL_SLIDE_NUM)
    {
      hide SlideUsable, IsFallback, IsRoomiest, UsableSlides, EstimatedKernelArea, Available, Disjoint;
      hasSandyOrIvy := sandyOrIvy;
      estimatedKernelArea := EstimateKernelArea(descs);
      var fallback, size := SurveySlides(descs);
      ghost var usable := Slides();
      hasMemoryMapAnalysis := true;
      custom, tokens := Decide(fallback);
      if usable == [] {
        assert Slides()[0] == fallback;
        assert IsFallback(descs[..], estimatedKernelArea, sandyOrIvy, TOTAL_SLIDE_NUM, validSlides[0], size);
        if WellFormed(descs[..]) && Disjoint(descs[..]) {
          FallbackIsRoomiest(descs[..], estimatedKernelArea, sandyOrIvy, validSlides[0], size);
        }
      }
    }

    /**
      Returns the cached decision, or analyses the current memory map (None when it cannot be obtained). If a slide is
      usable then, every slide that is listed puts a kernel area that ends below 2^64 into memory free in that map.
    */
    method ShouldUseCustomSlideOffset(memoryMap: Option<seq<Descriptor>>, filter: Option<seq<u64>>, sandyOrIvy: bool)
      returns (custom: bool, tokens: seq<SlidePrinting.Token>)
      requires Valid()
      modifies this, validSlides
      ensures Valid()
      ensures old(hasMemoryMapAnalysis) || memoryMap.None? ==>
                Slides() == old(Slides()) && hasMemoryMapAnalysis == old(hasMemoryMapAnalysis)
      ensures old(hasMemoryMapAnalysis) ==> custom == (0 < validSlideCount < TOTAL_SLIDE_NUM)
      ensures !old(hasMemoryMapAnalysis) && memoryMap.None? ==> !custom
      ensures !old(hasMemoryMapAnalysis) && memoryMap.Some? ==>
                && Analysed(Filtered(memoryMap.value, filter), sandyOrIvy)
                && custom == (validSlideCount < TOTAL_SLIDE_NUM)
      ensures !old(hasMemoryMapAnalysis) && memoryMap.Some? && WellFormed(memoryMap.value) && Disjoint(memoryMap.value)
              && UsableSlides(Filtered(memoryMap.value, filter), estimatedKernelArea, sandyOrIvy, TOTAL_SLIDE_NUM) != []
              ==> SlidesFree(memoryMap.value, estimatedKernelArea, sandyOrIvy, Slides())
    {
      hide Analysed, SlidesFree, UsableSlides, WellFormed, Disjoint;
      tokens := [];
      if hasMemoryMapAnalysis {
        custom := validSlideCount > 0 && validSlideCount < TOTAL_SLIDE_NUM;
        return;
      }
      if memoryMap.None? {
        return false, tokens;
      }
      var current := memoryMap.value;
      var descs := new Descriptor[|current|](i requires 0 <= i < |current| => current[i]);
      assert descs[..] == current;
      if filter.Some? {
        var _ := DevirtualiseMmio.Devirtualise(descs, filter.value);
      }
      custom, tokens := Analyse(descs, sandyOrIvy);
      if WellFormed(current) && Disjoint(current) {
        ListedSlidesFree(current, filter, estimatedKernelArea, sandyOrIvy);
        AnalysedSlides(Filtered(current, filter), sandyOrIvy);
      }
    }
  }
}

/** How the decision is logged: slides one by one, runs of three or more as ranges. */
module SlidePrinting {

  datatype Token =
    | Header(slide: int) // "Valid slides - %d"
    | Comma(slide: int)  // ", %d"
    | Dash(slide: int)   // "-%d"

  function Range(lo: int, hi: int): seq<int> {
    if lo <= hi then seq(hi - lo + 1, i => lo + i) else []
  }

  /** What a reader of the log adds to the slides read so far. */
  function ReadToken(read: seq<int>, token: Token): seq<int> {
    match token
    case Header(slide) => read + [slide]
    case Comma(slide) => read + [slide]
    case Dash(slide) => if read == [] then [] else read + Range(read[|read| - 1] + 1, slide)
  }

  function Decode(tokens: seq<Token>): seq<int> {
    if tokens == [] then [] else ReadToken(Decode(tokens[..|tokens| - 1]), tokens[|tokens| - 1])
  }

  /** The log always reads back as exactly the slides that were printed, whatever their order. */
  method Print(slides: seq<int>) returns (tokens: seq<Token>)
    requires slides != []
    ensures Decode(tokens) == slides
  {
    hide ReadToken;
    tokens := [];
    var numEntries := 0;
    for index := 0 to |slides| + 1
      invariant index == 0 ==> tokens == [] && numEntries == 0
      invariant index > 0 ==> 0 <= numEntries < index
      invariant 0 < index <= |slides| ==> Decode(tokens) == slides[..index - numEntries]
      invariant 0 < index <= |slides| ==>
                  forall k :: index - numEntries <= k < index ==> slides[k] == slides[k - 1] + 1
      invariant index == |slides| + 1 ==> Decode(tokens) == slides
    {
      if index == 0 {
        ReadNext(slides, 0);
        tokens := Append(tokens, Header(slides[index]));
      } else if index == |slides| || slides[index - 1] + 1 != slides[index] {
        CloseRun(slides, index - numEntries, index);
        ReadNext(slides, index);
        if numEntries == 1 {
          tokens := Append(tokens, Comma(slides[index - 1]));
        } else if numEntries > 1 {
          tokens := Append(tokens, Dash(slides[index - 1]));
        }
        if index != |slides| {
          tokens := Append(tokens, Comma(slides[index]));
        }
        numEntries := 0;
      } else {
        numEntries := numEntries + 1;
      }
    }
  }

  lemma ReadNext(slides: seq<int>, done: nat)
    ensures done < |slides| ==>
              && ReadToken(slides[..done], Comma(slides[done])) == slides[..done + 1]
              && ReadToken(slides[..done], Header(slides[done])) == slides[..done + 1]
  {
  }

  method Append(tokens: seq<Token>, token: Token) returns (longer: seq<Token>)
    ensures Decode(longer) == ReadToken(Decode(tokens), token)
  {
    longer := tokens + [token];
    assert longer[..|tokens|] == tokens;
  }

  lemma {:induction false} RunIsRange(slides: seq<int>, first: nat, end: nat)
    requires 0 < first <= end <= |slides|
    requires forall k :: first <= k < end ==> slides[k] == slides[k - 1] + 1
    ensures slides[first..end] == Range(slides[first - 1] + 1, slides[end - 1])
    decreases end
  {
    if first < end {
      RunIsRange(slides, first, end - 1);
      assert slides[first..end] == slides[first..end - 1] + [slides[end - 1]];
      RunGrows(slides, first, end);
    }
  }

  lemma {:induction false} RunGrows(slides: seq<int>, first: nat, end: nat)
    requires 0 < first <= end <= |slides|
    requires forall k :: first <= k < end ==> slides[k] == slides[k - 1] + 1
    ensures slides[end - 1] == slides[first - 1] + (end - first)
    decreases end
  {
    if first < end {
      RunGrows(slides, first, end - 1);
    }
  }

  /** The token that closes a run of `end - done` further slides completes the list read so far. */
  lemma CloseRun(slides: seq<int>, done: nat, end: nat)
    requires 0 < done <= end <= |slides|
    requires forall k :: done <= k < end ==> slides[k] == slides[k - 1] + 1
    ensures end - done == 1 ==> ReadToken(slides[..done], Comma(slides[end - 1])) == slides[..end]
    ensures ReadToken(slides[..done], Dash(slides[end - 1])) == slides[..end]
  {
    RunIsRange(slides, done, end);
    assert slides[..end] == slides[..done] + slides[done..end];
  }
}
