/** The overrides in place, driven by a tree of images that start images. */
module ServiceOverrides {
  import opened Words
  import opened ServiceTrace

  /** An image run: what it asks the boot services for before it returns. */
  datatype ImageRun = ImageRun(apple: bool, hibernateWake: bool, actions: Actions)

  datatype Actions = Done | Then(first: Action, rest: Actions)

  datatype Action = StartOther(image: ImageRun) | Ask(request: Request)

  /** The calls of a run in the order the firmware sees them. */
  function Calls(run: ImageRun): seq<Event> {
    [Enter(run.apple, run.hibernateWake)] + ActionCalls(run.actions) + [Leave]
  }

  function ActionCalls(actions: Actions): seq<Event> {
    match actions
    case Done => []
    case Then(StartOther(image), rest) => Calls(image) + ActionCalls(rest)
    case Then(Ask(request), rest) => [Allocate(request)] + ActionCalls(rest)
  }

  class ServiceState {
    var appleBootNestedCount: nat
    var minAllocatedAddr: u64
    var appleHibernateWake: bool
    var hibernateImageAddress: u64
    /** Every call so far, returned or not. */
    ghost var trace: seq<Event>

    /** The fields are what the trace makes of them. */
    ghost predicate Valid()
      reads this
    {
      && WellNested(trace)
      && State(trace)
         == Service(appleBootNestedCount, minAllocatedAddr, appleHibernateWake, hibernateImageAddress)
    }

    constructor ()
      ensures Valid() && trace == []
    {
      appleBootNestedCount, minAllocatedAddr := 0, 0;
      appleHibernateWake, hibernateImageAddress := false, 0;
      trace := [];
    }

    /** OcAllocatePages. */
    method AllocatePages(r: Request)
      requires Valid()
      modifies this
      ensures Valid() && trace == old(trace) + [Allocate(r)]
      ensures Stack(trace) == old(Stack(trace))
    {
      trace := trace + [Allocate(r)];
      assert trace[..|trace| - 1] == old(trace);
      if r.success && appleBootNestedCount > 0 {
        if r.kind == AllocateAddress && r.loaderData {
          if minAllocatedAddr == 0 || r.address < minAllocatedAddr {
            minAllocatedAddr := r.address;
          }
        } else if appleHibernateWake && r.kind == AllocateAnyPages && r.loaderData && hibernateImageAddress == 0 {
          hibernateImageAddress := r.address;
        }
      }
    }

    /** OcStartImage up to the firmware's StartImage. */
    method BeforeImage(apple: bool, hibernateWake: bool)
      requires Valid()
      modifies this
      ensures Valid() && trace == old(trace) + [Enter(apple, hibernateWake)]
      ensures Stack(trace) == old(Stack(trace)) + [apple]
    {
      trace := trace + [Enter(apple, hibernateWake)];
      assert trace[..|trace| - 1] == old(trace);
      minAllocatedAddr := 0;
      if apple {
        appleBootNestedCount := appleBootNestedCount + 1;
        appleHibernateWake := hibernateWake;
      }
    }

    /** OcStartImage after the firmware's StartImage has returned. */
    method AfterImage(apple: bool)
      requires Valid()
      requires Stack(trace) != [] && Stack(trace)[|Stack(trace)| - 1] == apple
      modifies this
      ensures Valid() && trace == old(trace) + [Leave]
      ensures Stack(trace) == old(Stack(trace))[..|old(Stack(trace))| - 1]
    {
      NestedCountIsStack(trace);
      trace := trace + [Leave];
      assert trace[..|trace| - 1] == old(trace);
      if apple {
        appleBootNestedCount := appleBootNestedCount - 1;
      }
    }

    /** OcStartImage: the counter goes up before boot.efi runs and down when it returns, however it nests. */
    method StartImage(run: ImageRun)
      requires Valid()
      modifies this
      ensures Valid() && trace == old(trace) + Calls(run)
      ensures Stack(trace) == old(Stack(trace)) && appleBootNestedCount == old(appleBootNestedCount)
      decreases run
    {
      hide State, Stack, AppleCount, WellNested;
      NestedCountIsStack(trace);
      BeforeImage(run.apple, run.hibernateWake);
      RunActions(run.actions);
      AfterImage(run.apple);
      NestedCountIsStack(trace);
    }

    /** What an image does while it runs. */
    method RunActions(actions: Actions)
      requires Valid()
      modifies this
      ensures Valid() && trace == old(trace) + ActionCalls(actions)
      ensures Stack(trace) == old(Stack(trace))
      decreases actions
    {
      hide State, Stack, WellNested;
      match actions
      case Done =>
      case Then(StartOther(image), rest) =>
        StartImage(image);
        RunActions(rest);
      case Then(Ask(request), rest) =>
        AllocatePages(request);
        RunActions(rest);
    }
  }
}
