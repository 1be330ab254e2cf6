/**
  Boot service overrides that track nested boot.efi runs and the memory they allocate, as a machine over the calls the
  firmware passes through them.
*/
module ServiceTrace {
  import opened Words

  datatype AllocateType = AllocateAnyPages | AllocateMaxAddress | AllocateAddress

  /** An AllocatePages call together with the firmware's answer. */
  datatype Request = Request(kind: AllocateType, loaderData: bool, success: bool, address: u64)

  datatype Event =
    | Enter(apple: bool, hibernateWake: bool) // StartImage is called
    | Leave                                   // the image started last returns
    | Allocate(request: Request)

  datatype Service = Service(
    nestedCount: nat,
    minAllocatedAddr: u64,
    hibernateWake: bool,
    hibernateImageAddress: u64)

  const IDLE: Service := Service(0, 0, false, 0)

  /** OcAllocatePages after the firmware call. */
  function Allocated(s: Service, r: Request): Service {
    if !r.success || s.nestedCount == 0 then s
    else if r.kind == AllocateAddress && r.loaderData then
      if s.minAllocatedAddr == 0 || r.address < s.minAllocatedAddr then s.(minAllocatedAddr := r.address) else s
    else if s.hibernateWake && r.kind == AllocateAnyPages && r.loaderData && s.hibernateImageAddress == 0 then
      s.(hibernateImageAddress := r.address)
    else s
  }

  /** OcStartImage before the firmware call. */
  function Entered(s: Service, apple: bool, hibernateWake: bool): Service {
    var cleared := s.(minAllocatedAddr := 0);
    if apple then cleared.(nestedCount := s.nestedCount + 1, hibernateWake := hibernateWake) else cleared
  }

  /** The images that have been started and have not returned: whether each of them is boot.efi. */
  function Stack(trace: seq<Event>): seq<bool> {
    if trace == [] then []
    else
      var n := |trace| - 1;
      var below := Stack(trace[..n]);
      match trace[n]
      case Enter(apple, _) => below + [apple]
      case Leave => if below == [] then [] else below[..|below| - 1]
      case Allocate(_) => below
  }

  /** Images only return after they have been started. */
  predicate WellNested(trace: seq<Event>) {
    trace == [] ||
    var n := |trace| - 1;
    WellNested(trace[..n]) && (trace[n] == Leave ==> Stack(trace[..n]) != [])
  }

  /** The override state after a trace; on return the frame of OcStartImage knows whether it started boot.efi. */
  function State(trace: seq<Event>): Service {
    if trace == [] then IDLE
    else
      var n := |trace| - 1;
      var s, stack := State(trace[..n]), Stack(trace[..n]);
      match trace[n]
      case Enter(apple, hibernateWake) => Entered(s, apple, hibernateWake)
      case Leave =>
        if stack != [] && stack[|stack| - 1] && s.nestedCount > 0 then s.(nestedCount := s.nestedCount - 1) else s
      case Allocate(request) => Allocated(s, request)
  }

  function AppleCount(stack: seq<bool>): nat {
    if stack == [] then 0
    else AppleCount(stack[..|stack| - 1]) + if stack[|stack| - 1] then 1 else 0
  }

  /** At every moment of every run the counter is the number of boot.efi images on the stack. */
  lemma {:induction false} NestedCountIsStack(trace: seq<Event>)
    requires WellNested(trace)
    ensures State(trace).nestedCount == AppleCount(Stack(trace))
  {
    if trace != [] {
      var n := |trace| - 1;
      NestedCountIsStack(trace[..n]);
      var below := Stack(trace[..n]);
      match trace[n]
      case Enter(apple, _) =>
        assert (below + [apple])[..|below|] == below;
      case Leave =>
      case Allocate(_) =>
    }
  }

  // The least allocated address.

  /** Addresses boot.efi has asked for and got since the last image start. */
  function Window(trace: seq<Event>): seq<u64> {
    if trace == [] then []
    else
      var n := |trace| - 1;
      match trace[n]
      case Enter(_, _) => []
      case Leave => Window(trace[..n])
      case Allocate(r) =>
        Window(trace[..n])
        + if r.success && r.kind == AllocateAddress && r.loaderData && AppleCount(Stack(trace[..n])) > 0 then
            [r.address]
          else []
  }

  /** An allocation at address 0 looks like no allocation at all: the addresses before it are forgotten. */
  function SinceZero(addresses: seq<u64>): seq<u64> {
    if addresses == [] then []
    else
      var n := |addresses| - 1;
      if addresses[n] == 0 then [] else SinceZero(addresses[..n]) + [addresses[n]]
  }

  ghost predicate IsLeast(addresses: seq<u64>, least: u64) {
    if addresses == [] then least == 0
    else least in addresses && forall a <- addresses :: least <= a
  }

  lemma {:induction false} SinceZeroHasNoZero(addresses: seq<u64>)
    ensures 0 !in SinceZero(addresses)
    ensures 0 !in addresses ==> SinceZero(addresses) == addresses
  {
    if addresses != [] {
      SinceZeroHasNoZero(addresses[..|addresses| - 1]);
    }
  }

  lemma SinceZeroAppend(addresses: seq<u64>, address: u64)
    ensures SinceZero(addresses + [address]) == if address == 0 then [] else SinceZero(addresses) + [address]
  {
  }

  lemma LeastStep(addresses: seq<u64>, least: u64, address: u64)
    requires 0 !in addresses && IsLeast(addresses, least) && address != 0
    ensures IsLeast(addresses + [address], if least == 0 || address < least then address else least)
  {
  }

  lemma AllocatedLeast(before: seq<u64>, s: Service, r: Request)
    requires IsLeast(SinceZero(before), s.minAllocatedAddr) && s.nestedCount > 0
    requires r.success && r.kind == AllocateAddress && r.loaderData
    ensures IsLeast(SinceZero(before + [r.address]), Allocated(s, r).minAllocatedAddr)
  {
    SinceZeroAppend(before, r.address);
    SinceZeroHasNoZero(before);
    if r.address != 0 {
      LeastStep(SinceZero(before), s.minAllocatedAddr, r.address);
    }
  }

  /** Exactly what MinAllocatedAddr is: the least address since the last image start and the last address 0. */
  lemma {:induction false} MinAllocatedIsLeast(trace: seq<Event>)
    requires WellNested(trace)
    ensures IsLeast(SinceZero(Window(trace)), State(trace).minAllocatedAddr)
  {
    if trace != [] {
      var n := |trace| - 1;
      MinAllocatedIsLeast(trace[..n]);
      NestedCountIsStack(trace[..n]);
      if trace[n].Allocate? {
        var r := trace[n].request;
        if r.success && r.kind == AllocateAddress && r.loaderData && AppleCount(Stack(trace[..n])) > 0 {
          AllocatedLeast(Window(trace[..n]), State(trace[..n]), r);
        } else {
          assert Window(trace) == Window(trace[..n]);
        }
      }
    }
  }

  /** The least address other than 0, or 0 if there is none. */
  ghost predicate IsLeastNonZero(addresses: seq<u64>, least: u64) {
    && (least != 0 ==> least in addresses)
    && forall a <- addresses :: a != 0 ==> 0 < least <= a
  }

  lemma {:induction false} SinceZeroIsPart(addresses: seq<u64>)
    ensures forall a <- SinceZero(addresses) :: a in addresses
  {
    if addresses != [] {
      SinceZeroIsPart(addresses[..|addresses| - 1]);
    }
  }

  /** Every address but 0 is matched by one at or below it since the last address 0. */
  ghost predicate NothingForgotten(addresses: seq<u64>) {
    forall a <- addresses :: a != 0 ==> exists b <- SinceZero(addresses) :: b <= a
  }

  /** It is the least address other than 0 since the last image start if and only if no address 0 hid a lower one. */
  lemma MinAllocatedIsLeastOfAll(trace: seq<Event>)
    requires WellNested(trace)
    ensures IsLeastNonZero(Window(trace), State(trace).minAllocatedAddr) <==> NothingForgotten(Window(trace))
    ensures 0 !in Window(trace) ==> NothingForgotten(Window(trace))
  {
    var window, least := Window(trace), State(trace).minAllocatedAddr;
    MinAllocatedIsLeast(trace);
    SinceZeroHasNoZero(window);
    SinceZeroIsPart(window);
    if IsLeastNonZero(window, least) && least == 0 {
      assert forall a <- window :: a == 0;
    }
    if SinceZero(window) != [] {
      assert least in SinceZero(window);
    }
  }

  function Got(address: u64): Event {
    Allocate(Request(AllocateAddress, true, true, address))
  }

  lemma GotStep(trace: seq<Event>, address: u64)
    requires WellNested(trace) && State(trace).nestedCount > 0
    ensures
      var longer := trace + [Got(address)];
      && WellNested(longer) && State(longer) == Allocated(State(trace), Got(address).request)
      && Window(longer) == Window(trace) + [address]
  {
    assert (trace + [Got(address)])[..|trace|] == trace;
    NestedCountIsStack(trace);
  }

  /** After an address 0 the least address seen before is lost: 0x2000 wins over 0x1000. */
  lemma ZeroAddressForgets()
    ensures
      var trace := [Enter(true, false)] + [Got(0x1000)] + [Got(0)] + [Got(0x2000)];
      && WellNested(trace) && Window(trace) == [0x1000, 0, 0x2000] && State(trace).minAllocatedAddr == 0x2000
      && !NothingForgotten(Window(trace))
  {
    var start := [Enter(true, false)];
    assert start[..0] == [];
    GotStep(start, 0x1000);
    GotStep(start + [Got(0x1000)], 0);
    GotStep(start + [Got(0x1000)] + [Got(0)], 0x2000);
    var trace := start + [Got(0x1000)] + [Got(0)] + [Got(0x2000)];
    MinAllocatedIsLeastOfAll(trace);
    assert Window(trace)[0] == 0x1000 && 0x1000 in Window(trace);
  }

  /** Whether boot.efi was last started to wake from hibernation. */
  function LastWake(trace: seq<Event>): bool {
    if trace == [] then false
    else
      var n := |trace| - 1;
      if trace[n].Enter? && trace[n].apple then trace[n].hibernateWake else LastWake(trace[..n])
  }

  /** Addresses boot.efi got anywhere in memory, for loader data, while waking from hibernation. */
  function WakeAddresses(trace: seq<Event>): seq<u64> {
    if trace == [] then []
    else
      var n := |trace| - 1;
      match trace[n]
      case Allocate(r) =>
        WakeAddresses(trace[..n])
        + if r.success && r.kind == AllocateAnyPages && r.loaderData && AppleCount(Stack(trace[..n])) > 0
             && LastWake(trace[..n]) then [r.address]
          else []
      case _ => WakeAddresses(trace[..n])
  }

  /** The first address other than 0, or 0 if there is none. */
  ghost predicate IsFirstNonZero(addresses: seq<u64>, first: u64) {
    if first == 0 then forall i :: 0 <= i < |addresses| ==> addresses[i] == 0
    else exists i :: 0 <= i < |addresses| && addresses[i] == first && forall j :: 0 <= j < i ==> addresses[j] == 0
  }

  lemma FirstStep(addresses: seq<u64>, first: u64, address: u64)
    requires IsFirstNonZero(addresses, first)
    ensures IsFirstNonZero(addresses + [address], if first == 0 then address else first)
  {
    var more := addresses + [address];
    if first == 0 {
      assert more[|addresses|] == address;
    } else {
      var i :| 0 <= i < |addresses| && addresses[i] == first && forall j :: 0 <= j < i ==> addresses[j] == 0;
      assert more[i] == first;
    }
  }

  /** Exactly which allocation is taken for the hibernation image: the first such one at an address other than 0. */
  lemma {:induction false} HibernateImageExactly(trace: seq<Event>)
    requires WellNested(trace)
    ensures State(trace).hibernateWake == LastWake(trace)
    ensures IsFirstNonZero(WakeAddresses(trace), State(trace).hibernateImageAddress)
  {
    if trace != [] {
      var n := |trace| - 1;
      HibernateImageExactly(trace[..n]);
      NestedCountIsStack(trace[..n]);
      if trace[n].Allocate? {
        var r, s := trace[n].request, State(trace[..n]);
        if r.success && r.kind == AllocateAnyPages && r.loaderData && s.nestedCount > 0 && s.hibernateWake {
          FirstStep(WakeAddresses(trace[..n]), s.hibernateImageAddress, r.address);
        } else {
          assert WakeAddresses(trace) == WakeAddresses(trace[..n]);
        }
      }
    }
  }

  /** The hibernation image address, once known, never changes. */
  lemma {:induction false} HibernateImageStays(trace: seq<Event>, n: nat)
    requires n <= |trace| && State(trace[..n]).hibernateImageAddress != 0
    ensures State(trace).hibernateImageAddress == State(trace[..n]).hibernateImageAddress
  {
    if n < |trace| {
      assert trace[..|trace| - 1][..n] == trace[..n];
      HibernateImageStays(trace[..|trace| - 1], n);
    } else {
      assert trace[..n] == trace;
    }
  }
}
