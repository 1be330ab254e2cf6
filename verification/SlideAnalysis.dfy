/**
  KASLR slide analysis of boot.efi: which of the 256 slides put the kernel into free memory.
*/
module SlideAnalysis {
  import opened Words
  import opened MemoryMap

  const TOTAL_SLIDE_NUM: int := 0x100
  const KERNEL_BASE_PADDR: int := 0x10_0000
  const SLIDE_GRANULARITY: int := 0x20_0000
  const SLIDE_ERRATA_NUM: int := 0x80
  const SLIDE_ERRATA_SKIP_RANGE: int := 0x1020_0000
  const ESTIMATED_KERNEL_SIZE: int := 0x800_0000

  type Slide = s: int | 0 <= s < 0x100

  /** First byte of the kernel area for a slide; Sandy and Ivy Bridge skip the graphics range. */
  function SlideStart(sandyOrIvy: bool, slide: Slide): u64 {
    slide * SLIDE_GRANULARITY + KERNEL_BASE_PADDR
    + if slide >= SLIDE_ERRATA_NUM && sandyOrIvy then SLIDE_ERRATA_SKIP_RANGE else 0
  }

  /** Where slides start: 2 MB apart from 1 MB on, on Sandy and Ivy Bridge with a gap of 258 MB in the middle. */
  lemma SlideStarts(slide: Slide)
    ensures SlideStart(false, 0) == SlideStart(true, 0) == 0x10_0000
    ensures slide < 0xFF ==> SlideStart(false, slide + 1) == SlideStart(false, slide) + 0x20_0000
    ensures slide < 0xFF ==>
              SlideStart(true, slide + 1) == SlideStart(true, slide) + if slide == 0x7F then 0x1040_0000 else 0x20_0000
  {
  }

  /** One past the last byte of the kernel area, in 64 bits. */
  function SlideEnd(area: u64, sandyOrIvy: bool, slide: Slide): u64 {
    Wrap(SlideStart(sandyOrIvy, slide) + area)
  }

  /** Size reserved for the kernel and the runtime pages boot.efi puts behind it, in 64 bits. */
  function EstimatedKernelArea(descs: seq<Descriptor>): u64 {
    Wrap(Wrap(Wrap(RuntimePages(descs)) * PAGE_SIZE) + ESTIMATED_KERNEL_SIZE)
  }

  /** The analysis gets stuck on the first descriptor without pages: only those before it are looked at. */
  function VisibleCount(descs: seq<Descriptor>): (n: nat)
    ensures n <= |descs|
    ensures forall i :: 0 <= i < n ==> descs[i].pages != 0
    ensures n < |descs| ==> descs[n].pages == 0
  {
    if descs == [] || descs[0].pages == 0 then 0 else 1 + VisibleCount(descs[1..])
  }

  function Visible(descs: seq<Descriptor>): seq<Descriptor> {
    descs[..VisibleCount(descs)]
  }

  function MachineEnd(d: Descriptor): u64 {
    Wrap(d.LastAddr() + 1)
  }

  predicate Touches(d: Descriptor, lo: u64, hi: u64) {
    d.physicalStart < hi && MachineEnd(d) > lo
  }

  /** What one free descriptor adds to the available size. */
  function Share(d: Descriptor, lo: u64, hi: u64): int {
    Wrap(d.pages * PAGE_SIZE)
    - (if d.physicalStart < lo then lo - d.physicalStart else 0)
    - (if MachineEnd(d) > hi then MachineEnd(d) - hi else 0)
  }

  datatype Coverage = Coverage(available: u64, blocked: bool)

  function Extend(before: Coverage, d: Descriptor, lo: u64, hi: u64): Coverage {
    if before.blocked || !Touches(d, lo, hi) then before
    else if !d.kind.Conventional? then Coverage(before.available, true)
    else Coverage(Wrap(before.available + Share(d, lo, hi)), false)
  }

  /** Free bytes counted in [lo, hi) until a used descriptor blocks the area. */
  function Survey(descs: seq<Descriptor>, lo: u64, hi: u64): Coverage {
    if descs == [] then Coverage(0, false)
    else Extend(Survey(descs[..|descs| - 1], lo, hi), descs[|descs| - 1], lo, hi)
  }

  lemma SurveyStarts(none: seq<Descriptor>, lo: u64, hi: u64)
    requires none == []
    ensures Survey(none, lo, hi) == Coverage(0, false)
  {
  }

  lemma SurveyNext(descs: seq<Descriptor>, n: nat, lo: u64, hi: u64)
    requires n < |descs|
    ensures Survey(descs[..n + 1], lo, hi) == Extend(Survey(descs[..n], lo, hi), descs[n], lo, hi)
  {
    assert descs[..n + 1][..n] == descs[..n];
  }

  lemma {:induction false} SurveyBlockedStays(descs: seq<Descriptor>, n: nat, lo: u64, hi: u64)
    requires n <= |descs|
    requires Survey(descs[..n], lo, hi).blocked
    ensures Survey(descs, lo, hi) == Survey(descs[..n], lo, hi)
  {
    if n == |descs| {
      assert descs[..n] == descs;
    } else {
      var shorter := descs[..|descs| - 1];
      assert shorter[..n] == descs[..n];
      SurveyBlockedStays(shorter, n, lo, hi);
    }
  }

  function SlideCoverage(descs: seq<Descriptor>, area: u64, sandyOrIvy: bool, slide: Slide): Coverage {
    Survey(Visible(descs), SlideStart(sandyOrIvy, slide), SlideEnd(area, sandyOrIvy, slide))
  }

  predicate SlideUsable(descs: seq<Descriptor>, area: u64, sandyOrIvy: bool, slide: Slide) {
    var c := SlideCoverage(descs, area, sandyOrIvy, slide);
    !c.blocked && Wrap(SlideStart(sandyOrIvy, slide) + c.available) == SlideEnd(area, sandyOrIvy, slide)
  }

  /** The usable slides below `n` in increasing order. */
  function UsableSlides(descs: seq<Descriptor>, area: u64, sandyOrIvy: bool, n: nat): (slides: seq<Slide>)
    requires n <= TOTAL_SLIDE_NUM
    ensures |slides| <= n
    ensures forall i :: 0 <= i < |slides| ==> slides[i] < n
    ensures forall s: Slide :: s in slides <==> s < n && SlideUsable(descs, area, sandyOrIvy, s)
    ensures forall i, j :: 0 <= i < j < |slides| ==> slides[i] < slides[j]
  {
    if n == 0 then []
    else
      var below := UsableSlides(descs, area, sandyOrIvy, n - 1);
      if SlideUsable(descs, area, sandyOrIvy, n - 1) then below + [n - 1] else below
  }

  function Available(descs: seq<Descriptor>, area: u64, sandyOrIvy: bool, slide: Slide): u64 {
    SlideCoverage(descs, area, sandyOrIvy, slide).available
  }

  /** `fallback` is the least slide below `n` with the most available bytes, slide 0 when there are none. */
  ghost predicate IsFallback(descs: seq<Descriptor>, area: u64, sandyOrIvy: bool, n: nat, fallback: Slide, size: u64)
    requires n <= TOTAL_SLIDE_NUM
  {
    && (size == 0 ==> fallback == 0)
    && (size != 0 ==> fallback < n && Available(descs, area, sandyOrIvy, fallback) == size)
    && (forall s: Slide :: s < n ==> Available(descs, area, sandyOrIvy, s) <= size)
    && (forall s: Slide :: s < fallback ==> Available(descs, area, sandyOrIvy, s) < size)
  }

  lemma FallbackStep(descs: seq<Descriptor>, area: u64, sandyOrIvy: bool, n: nat, fallback: Slide, size: u64)
    requires n < TOTAL_SLIDE_NUM
    requires IsFallback(descs, area, sandyOrIvy, n, fallback, size)
    ensures
      var available := Available(descs, area, sandyOrIvy, n);
      if available > size then IsFallback(descs, area, sandyOrIvy, n + 1, n, available)
      else IsFallback(descs, area, sandyOrIvy, n + 1, fallback, size)
  {
  }
}
