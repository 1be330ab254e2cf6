/** The patch itself, in place on the bytes of the image. */
module SafeModePatch {
  import opened SafeModeSearch
  import opened LittleEndian

  const SEARCH_SEQ_NEW: seq<byte> := [0xF6, 0xC4, 0x40, 0x75]
  const SEARCH_SEQ_NEW2: seq<byte> := [0x0F, 0xBA, 0xE0, 0x0E, 0x72]
  const SEARCH_SEQ: seq<byte> := [0x01, 0x40, 0x00, 0x00]

  /** Last offset the search looks at; negative for images under 20 bytes, which are left alone. */
  function EndOff(image: seq<byte>): int {
    |image| - |SEARCH_SEQ| - MAX_DIST
  }

  predicate At(image: seq<byte>, offset: int, pattern: seq<byte>) {
    0 <= offset <= |image| - |pattern| && image[offset..offset + |pattern|] == pattern
  }

  function SiteAt(image: seq<byte>, offset: int): Site {
    if offset <= EndOff(image) - 1 && At(image, offset, SEARCH_SEQ_NEW2) then NewCheck(|SEARCH_SEQ_NEW2|)
    else if At(image, offset, SEARCH_SEQ_NEW) then NewCheck(|SEARCH_SEQ_NEW|)
    else if At(image, offset, SEARCH_SEQ) then OldCheck
    else NoCheck
  }

  function MarksOf(image: seq<byte>): (marks: Marks)
    ensures marks.end == if EndOff(image) < 0 then -1 else EndOff(image)
    ensures marks.Valid()
  {
    var n := if EndOff(image) < 0 then 0 else EndOff(image) + 1;
    var m := if EndOff(image) < 0 then 0 else |image| - |SEARCH_SEQ| + 1;
    var marks := Marks(seq(n, i => SiteAt(image, i)), seq(m, i => At(image, i, SEARCH_SEQ)));
    assert marks.Valid() by {
      forall k, j | 0 <= k < j < k + CONSTANT_SIZE && j <= marks.end && marks.constants[k]
        ensures marks.sites[j] == NoCheck
      {
        NoOverlap(image, k, j);
      }
    }
    marks
  }

  lemma AtHead(image: seq<byte>, offset: int, pattern: seq<byte>)
    requires pattern != []
    ensures At(image, offset, pattern) ==> image[offset] == pattern[0]
  {
    if At(image, offset, pattern) {
      assert image[offset..offset + |pattern|][0] == image[offset];
    }
  }

  lemma NoCheckByHead(image: seq<byte>, offset: nat)
    requires offset < |image| && image[offset] !in {0x01, 0x0F, 0xF6}
    ensures SiteAt(image, offset) == NoCheck
  {
    AtHead(image, offset, SEARCH_SEQ);
    AtHead(image, offset, SEARCH_SEQ_NEW);
    AtHead(image, offset, SEARCH_SEQ_NEW2);
  }

  /** After an old-style constant no other pattern can start before it ends. */
  lemma NoOverlap(image: seq<byte>, offset: int, k: int)
    requires At(image, offset, SEARCH_SEQ)
    requires offset < k < offset + |SEARCH_SEQ|
    ensures SiteAt(image, k) == NoCheck
  {
    assert image[offset..offset + |SEARCH_SEQ|][k - offset] == image[k];
    NoCheckByHead(image, k);
  }

  function Filled(image: seq<byte>, offset: nat, length: nat, value: byte): seq<byte>
    requires offset + length <= |image|
  {
    image[..offset] + seq(length, _ => value) + image[offset + length..]
  }

  predicate InImage(image: seq<byte>, outcome: Outcome) {
    match outcome
    case Untouched => true
    case Nopped(first, length) => first + length <= |image|
    case Paired(first, second) => first + |SEARCH_SEQ| <= second <= |image| - |SEARCH_SEQ|
    case Stray(first, second) => first + |SEARCH_SEQ| <= second <= |image| - |SEARCH_SEQ|
  }

  function Patched(image: seq<byte>, outcome: Outcome): seq<byte>
    requires InImage(image, outcome)
  {
    match outcome
    case Untouched => image
    case Nopped(first, length) => Filled(image, first, length, 0x90)
    case Paired(first, second) => Filled(Filled(image, first, 4, 0xFF), second, 4, 0xFF)
    case Stray(first, second) => Filled(Filled(image, first, 4, 0xFF), second, 4, 0xFF)
  }

  /** Whatever the search decides, only bytes of the image are written. */
  lemma {:induction false} ScanStaysInImage(image: seq<byte>, offset: nat)
    ensures InImage(image, MarksOf(image).Scan(offset))
    decreases |image| - offset
  {
    var marks := MarksOf(image);
    var first := marks.FirstStop(offset);
    if first <= marks.end {
      assert marks.sites[first] == SiteAt(image, first);
      if marks.sites[first] == OldCheck && first + MAX_DIST < marks.Second(first) {
        ScanStaysInImage(image, first + |SEARCH_SEQ|);
      }
    }
  }

  /** What can be disabled, in bytes: the new-style checks, or 0x4001 twice within 16 bytes. */
  lemma QualifiesExactly(image: seq<byte>, offset: int)
    ensures MarksOf(image).Qualifies(offset) <==>
            && 0 <= offset <= |image| - 20
            && (|| At(image, offset, [0xF6, 0xC4, 0x40, 0x75])
                || (offset < |image| - 20 && At(image, offset, [0x0F, 0xBA, 0xE0, 0x0E, 0x72]))
                || (At(image, offset, [0x01, 0x40, 0x00, 0x00])
                    && exists second ::
                          offset + 4 <= second <= offset + 16 && At(image, second, [0x01, 0x40, 0x00, 0x00])))
  {
    var marks := MarksOf(image);
    if 0 <= offset <= |image| - 20 {
      AtHead(image, offset, SEARCH_SEQ);
      AtHead(image, offset, SEARCH_SEQ_NEW);
      AtHead(image, offset, SEARCH_SEQ_NEW2);
      assert marks.sites[offset] == SiteAt(image, offset);
      assert forall second :: offset + 4 <= second <= offset + 16 ==>
          (marks.IsPartner(offset, second) <==> At(image, second, SEARCH_SEQ));
    }
  }

  lemma FilledAt(image: seq<byte>, offset: nat, length: nat, value: byte, k: nat)
    requires offset + length <= |image| && k < |image|
    ensures |Filled(image, offset, length, value)| == |image|
    ensures Filled(image, offset, length, value)[k] == if offset <= k < offset + length then value else image[k]
  {
  }

  /** What the patch leaves behind, byte by byte: NOPs for a check and its branch, or two constants of 0xFF bytes. */
  lemma PatchedExactly(image: seq<byte>, outcome: Outcome, k: nat)
    requires InImage(image, outcome) && k < |image|
    ensures |Patched(image, outcome)| == |image|
    ensures
      Patched(image, outcome)[k] ==
      match outcome
      case Untouched => image[k]
      case Nopped(first, length) => if first <= k < first + length then 0x90 else image[k]
      case Paired(first, second) => if first <= k < first + 4 || second <= k < second + 4 then 0xFF else image[k]
      case Stray(first, second) => if first <= k < first + 4 || second <= k < second + 4 then 0xFF else image[k]
  {
    hide Filled;
    match outcome
    case Untouched =>
    case Nopped(first, length) => FilledAt(image, first, length, 0x90, k);
    case Paired(first, second) =>
      FilledAt(image, first, 4, 0xFF, k);
      FilledAt(Filled(image, first, 4, 0xFF), second, 4, 0xFF, k);
    case Stray(first, second) =>
      FilledAt(image, first, 4, 0xFF, k);
      FilledAt(Filled(image, first, 4, 0xFF), second, 4, 0xFF, k);
  }

  /** How much is overwritten: a new-style check and the one byte behind it. */
  lemma NoppedExactly(image: seq<byte>)
    ensures
      var outcome := MarksOf(image).Scan(0);
      outcome.Nopped? ==>
        || (outcome.length == 6 && At(image, outcome.first, [0x0F, 0xBA, 0xE0, 0x0E, 0x72]))
        || (outcome.length == 5 && At(image, outcome.first, [0xF6, 0xC4, 0x40, 0x75]))
  {
    var marks := MarksOf(image);
    marks.ScanFindsLeftmost(0);
    if marks.Scan(0).Nopped? {
      assert marks.sites[marks.Scan(0).first] == SiteAt(image, marks.Scan(0).first);
    }
  }

  method SetMem(image: array<byte>, offset: nat, length: nat, value: byte)
    requires offset + length <= image.Length
    modifies image
    ensures image[..] == Filled(old(image[..]), offset, length, value)
  {
    ghost var before := image[..];
    for i := 0 to length
      invariant image[..] == Filled(before, offset, i, value)
    {
      image[offset + i] := value;
    }
  }

  method CompareMem(image: array<byte>, offset: nat, pattern: seq<byte>) returns (equal: bool)
    requires offset + |pattern| <= image.Length
    ensures equal == At(image[..], offset, pattern)
  {
    equal := image[offset..offset + |pattern|] == pattern;
    assert image[..][offset..offset + |pattern|] == image[offset..offset + |pattern|];
  }

  method ReadSite(image: array<byte>, offset: nat) returns (site: Site)
    requires offset <= EndOff(image[..])
    ensures site == SiteAt(image[..], offset)
  {
    var endOff := image.Length - |SEARCH_SEQ| - MAX_DIST;
    var found := false;
    if offset <= endOff - 1 {
      found := CompareMem(image, offset, SEARCH_SEQ_NEW2);
    }
    if found {
      return NewCheck(|SEARCH_SEQ_NEW2|);
    }
    found := CompareMem(image, offset, SEARCH_SEQ_NEW);
    if found {
      return NewCheck(|SEARCH_SEQ_NEW|);
    }
    found := CompareMem(image, offset, SEARCH_SEQ);
    site := if found then OldCheck else NoCheck;
  }

  /** The first inner search. */
  method FindFirst(image: array<byte>, start: nat) returns (firstOff: nat, site: Site)
    ensures firstOff == MarksOf(image[..]).FirstStop(start)
    ensures firstOff <= EndOff(image[..]) ==> site == MarksOf(image[..]).sites[firstOff]
  {
    ghost var marks := MarksOf(image[..]);
    var endOff := image.Length - |SEARCH_SEQ| - MAX_DIST;
    firstOff, site := start, NoCheck;
    while firstOff <= endOff
      invariant start <= firstOff
      invariant marks.FirstStop(start) == marks.FirstStop(firstOff)
      decreases image.Length - firstOff
    {
      site := ReadSite(image, firstOff);
      if site != NoCheck {
        return;
      }
      firstOff := firstOff + 1;
    }
  }

  /** The second inner search. */
  method FindSecond(image: array<byte>, firstOff: nat) returns (secondOff: nat)
    ensures secondOff == MarksOf(image[..]).Second(firstOff)
  {
    ghost var marks := MarksOf(image[..]);
    var endOff := image.Length - |SEARCH_SEQ| - MAX_DIST;
    secondOff := firstOff + |SEARCH_SEQ|;
    while secondOff <= endOff && firstOff + MAX_DIST >= secondOff
      invariant firstOff + |SEARCH_SEQ| <= secondOff
      invariant marks.Second(firstOff) == marks.SecondStop(firstOff, secondOff)
      decreases image.Length - secondOff
    {
      var same := CompareMem(image, secondOff, SEARCH_SEQ);
      if same {
        return;
      }
      secondOff := secondOff + 1;
    }
  }

  /** AppleSlideUnlockForSafeMode: terminates and patches what `Scan` finds. */
  method UnlockForSafeMode(image: array<byte>)
    modifies image
    ensures InImage(old(image[..]), MarksOf(old(image[..])).Scan(0))
    ensures image[..] == Patched(old(image[..]), MarksOf(old(image[..])).Scan(0))
  {
    hide MarksOf, SiteAt, At, Filled, Marks.FirstStop, Marks.SecondStop, Marks.Second, Marks.Valid, Marks.Constant;
    ghost var before, marks := image[..], MarksOf(image[..]);
    ScanStaysInImage(before, 0);
    var endOff := image.Length - |SEARCH_SEQ| - MAX_DIST;
    var firstOff, secondOff := 0, 0;

    while secondOff == 0
      invariant image[..] == before && 0 <= firstOff
      invariant secondOff == 0 ==> marks.Scan(firstOff) == marks.Scan(0)
      invariant secondOff != 0 ==>
                  marks.Scan(0) == Paired(firstOff, secondOff) || marks.Scan(0) == Stray(firstOff, secondOff)
      decreases |before| - firstOff, secondOff == 0
    {
      var site;
      firstOff, site := FindFirst(image, firstOff);
      if firstOff > endOff {
        return;
      }
      if site.NewCheck? {
        SetMem(image, firstOff, site.length + 1, 0x90);
        return;
      }
      secondOff := FindSecond(image, firstOff);
      if firstOff + MAX_DIST < secondOff {
        secondOff := 0;
        firstOff := firstOff + |SEARCH_SEQ|;
      }
    }
    PatchPair(image, firstOff, secondOff);
  }

  /** Both constants. */
  method PatchPair(image: array<byte>, firstOff: nat, secondOff: nat)
    requires firstOff + |SEARCH_SEQ| <= image.Length && secondOff + |SEARCH_SEQ| <= image.Length
    modifies image
    ensures image[..] == Filled(Filled(old(image[..]), firstOff, 4, 0xFF), secondOff, 4, 0xFF)
  {
    SetMem(image, firstOff, |SEARCH_SEQ|, 0xFF);
    SetMem(image, secondOff, |SEARCH_SEQ|, 0xFF);
  }

  /** An orphan at the end of a 24-byte image: four bytes behind it are overwritten though they match nothing. */
  lemma OrphanOverwritesStrangers()
    ensures
      var image: seq<byte> := [0, 0, 0, 0] + SEARCH_SEQ + seq(16, _ => 0);
      MarksOf(image).Scan(0) == Stray(4, 8) && !At(image, 8, SEARCH_SEQ)
  {
    var image: seq<byte> := [0, 0, 0, 0] + SEARCH_SEQ + seq(16, _ => 0);
    forall k: nat | k < 4
      ensures SiteAt(image, k) == NoCheck
    {
      NoCheckByHead(image, k);
    }
    AtHead(image, 4, SEARCH_SEQ_NEW);
    assert image[4..8] == SEARCH_SEQ;
    assert SiteAt(image, 4) == OldCheck;
    AtHead(image, 8, SEARCH_SEQ);
    var marks := MarksOf(image);
    assert marks.sites[4] == OldCheck;
    assert marks.FirstStop(0) == 4;
  }

  /** A partner just behind the search range is found all the same: both constants are overwritten. */
  lemma EdgePairIsPatched()
    ensures
      var image: seq<byte> := [0, 0, 0, 0] + SEARCH_SEQ + SEARCH_SEQ + seq(12, _ => 0);
      MarksOf(image).Scan(0) == Paired(4, 8) && MarksOf(image).IsLeftmost(Paired(4, 8))
  {
    var image: seq<byte> := [0, 0, 0, 0] + SEARCH_SEQ + SEARCH_SEQ + seq(12, _ => 0);
    forall k: nat | k < 4
      ensures SiteAt(image, k) == NoCheck
    {
      NoCheckByHead(image, k);
    }
    AtHead(image, 4, SEARCH_SEQ_NEW);
    assert image[4..8] == SEARCH_SEQ && image[8..12] == SEARCH_SEQ;
    assert SiteAt(image, 4) == OldCheck;
    var marks := MarksOf(image);
    assert marks.sites[4] == OldCheck && marks.constants[8];
    assert marks.FirstStop(0) == 4;
    assert marks.Constant(8) && marks.IsPartner(4, 8);
    marks.ScanFindsLeftmost(0);
  }
}

/**
  Where boot.efi can be patched so that safe mode does not switch KASLR off, and the order of the search for it.
*/
module SafeModeSearch {

  const MAX_DIST: int := 0x10
  const CONSTANT_SIZE: int := 4

  /** NewCheck is compare code of `length` bytes, OldCheck the constant 0x4001 as a 32-bit word. */
  datatype Site = NewCheck(length: nat) | OldCheck | NoCheck

  /**
    Where an image holds what: checks at the searched offsets 0 to `end`, old-style constants everywhere. A negative
    `end` stands for a short image.
  */
  datatype Marks = Marks(sites: seq<Site>, constants: seq<bool>) {
    const end: int := |sites| - 1

    predicate Valid() {
      && |sites| <= |constants|
      && (forall k :: 0 <= k <= end && sites[k] == OldCheck ==> constants[k])
      // No pattern starts inside a constant.
      && (forall k, j :: 0 <= k < j < k + CONSTANT_SIZE && j <= end && constants[k] ==> sites[j] == NoCheck)
    }

    predicate Constant(offset: int) {
      0 <= offset < |constants| && constants[offset]
    }

    /** First offset at or after `offset` that holds a check, or the first one behind the search range. */
    function FirstStop(offset: nat): (stop: nat)
      ensures offset <= stop && (offset < stop ==> stop <= |sites|)
      ensures forall k :: offset <= k < stop ==> sites[k] == NoCheck
      ensures stop <= end ==> sites[stop] != NoCheck
      decreases |sites| - offset
    {
      if offset <= end && sites[offset] == NoCheck then FirstStop(offset + 1) else offset
    }

    /** Where the search for the second constant ends: on a match, out of range, or more than MAX_DIST away. */
    function SecondStop(first: nat, offset: nat): (stop: nat)
      ensures offset <= stop
      ensures forall k :: offset <= k < stop ==> !Constant(k)
      ensures offset < stop ==> stop - 1 <= end && stop - 1 <= first + MAX_DIST
      ensures stop <= end && stop <= first + MAX_DIST ==> Constant(stop)
      decreases |sites| - offset
    {
      if offset <= end && first + MAX_DIST >= offset && !Constant(offset) then SecondStop(first, offset + 1)
      else offset
    }

    function Second(first: nat): nat {
      SecondStop(first, first + CONSTANT_SIZE)
    }

    function Scan(offset: nat): Outcome
      requires Valid()
      decreases |sites| - offset
    {
      var first := FirstStop(offset);
      if first > end then Untouched
      else if sites[first].NewCheck? then Nopped(first, sites[first].length + 1)
      else if first + MAX_DIST < Second(first) then Scan(first + CONSTANT_SIZE)
      else if Constant(Second(first)) then Paired(first, Second(first))
      else Stray(first, Second(first))
    }

    // What the patch is for.

    ghost predicate IsPartner(first: int, second: int) {
      first + CONSTANT_SIZE <= second <= first + MAX_DIST && Constant(second)
    }

    /** A check that can be disabled: a new-style one, or an old-style constant used twice close together. */
    ghost predicate Qualifies(offset: int) {
      && 0 <= offset <= end
      && (sites[offset].NewCheck? || (sites[offset] == OldCheck && exists second :: IsPartner(offset, second)))
    }

    ghost predicate NoneBelow(offset: int) {
      forall k :: k < offset ==> !Qualifies(k)
    }

    /** The outcome disables the leftmost check that can be disabled, using the nearest partner. */
    ghost predicate IsLeftmost(outcome: Outcome) {
      match outcome
      case Untouched => NoneBelow(|sites|)
      case Nopped(first, length) =>
        Qualifies(first) && NoneBelow(first) && length > 0 && sites[first] == NewCheck(length - 1)
      case Paired(first, second) =>
        && Qualifies(first) && NoneBelow(first) && sites[first] == OldCheck
        && IsPartner(first, second)
        && forall k :: k < second ==> !IsPartner(first, k)
      case Stray(_, _) => false
    }

    /** No constant follows up to the place where the search for one runs out of range, short of MAX_DIST. */
    predicate RunsOut(first: int) {
      var stop := if first + CONSTANT_SIZE <= end then end + 1 else first + CONSTANT_SIZE;
      stop <= first + MAX_DIST && forall k :: first + CONSTANT_SIZE <= k <= stop ==> !Constant(k)
    }

    /** An old-style constant, left of every check that can be disabled, whose partner search runs out of range. */
    ghost predicate Orphan(offset: int) {
      0 <= offset <= end && sites[offset] == OldCheck && NoneBelow(offset) && RunsOut(offset)
    }

    lemma OldCheckQualifies(first: nat)
      requires Valid() && first <= end && sites[first] == OldCheck
      ensures IsPartner(first, Second(first)) ==> Qualifies(first)
      ensures first + MAX_DIST < Second(first) ==> !Qualifies(first)
      ensures RunsOut(first) <==> Second(first) <= first + MAX_DIST && !Constant(Second(first))
      ensures forall k :: k < Second(first) ==> !IsPartner(first, k)
    {
    }

    /** Skipping the four bytes of an unpaired constant can skip no check. */
    lemma SkipLosesNothing(first: nat)
      requires Valid() && first <= end && sites[first] == OldCheck
      requires NoneBelow(first) && first + MAX_DIST < Second(first)
      ensures NoneBelow(first + CONSTANT_SIZE)
    {
    }

    lemma {:induction false} ScanFindsLeftmost(offset: nat)
      requires Valid() && NoneBelow(offset)
      ensures if Scan(offset).Stray? then Orphan(Scan(offset).first) else IsLeftmost(Scan(offset))
      decreases |sites| - offset
    {
      var first := FirstStop(offset);
      assert NoneBelow(first);
      if first <= end && sites[first] == OldCheck {
        OldCheckQualifies(first);
        if first + MAX_DIST < Second(first) {
          SkipLosesNothing(first);
          ScanFindsLeftmost(first + CONSTANT_SIZE);
        }
      }
    }

    lemma {:induction false} ScanStopsAtOrphan(offset: nat, orphan: int)
      requires Valid() && Orphan(orphan) && offset <= orphan
      ensures Scan(offset).Stray?
      decreases |sites| - offset
    {
      var first := FirstStop(offset);
      assert first <= orphan && (first < orphan ==> !Qualifies(first));
      OldCheckQualifies(first);
      if first + MAX_DIST < Second(first) {
        assert constants[first];
        ScanStopsAtOrphan(first + CONSTANT_SIZE, orphan);
      }
    }

    /** The leftmost check is disabled if and only if there is no orphan. */
    lemma LeftmostExactly()
      requires Valid()
      ensures IsLeftmost(Scan(0)) <==> forall k :: !Orphan(k)
    {
      ScanFindsLeftmost(0);
      if orphan :| Orphan(orphan) {
        ScanStopsAtOrphan(0, orphan);
      }
    }
  }

  datatype Outcome =
    | Untouched
    | Nopped(first: nat, length: nat)
    | Paired(first: nat, second: nat)
    /** The second search ran out of range: four bytes that are no constant are overwritten. */
    | Stray(first: nat, second: nat)
}
