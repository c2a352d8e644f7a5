/** Runs of allocations and frees after a successful init. */
module PmmRuns {
  import opened PmmLayout
  import P = Pmm

  /** What happens between two holdings, as pmm_alloc and pmm_free promise it; callers free only
      what they hold. */
  datatype Event = Got(frame: nat) | OutOfMemory | Freed(frame: nat) | Ignored

  datatype Holdings = Holdings(free: set<nat>, held: set<nat>)

  ghost predicate Serves(a: Holdings, e: Event, b: Holdings) {
    match e
    case Got(f) => f in a.free && b == Holdings(a.free - {f}, a.held + {f})
    case OutOfMemory => a.free == {} && b == a
    case Freed(f) => f in a.held && f !in a.free && b == Holdings(a.free + {f}, a.held - {f})
    case Ignored => b == a
  }

  ghost predicate Service(holdings: seq<Holdings>, events: seq<Event>) {
    && |holdings| == |events| + 1
    && holdings[0].held == {}
    && forall i :: 0 <= i < |events| ==> Serves(holdings[i], events[i], holdings[i + 1])
  }

  /** Free and held frames together are always the frames that were free at first, and no frame is
      both. */
  lemma {:induction false} ServiceConserves(holdings: seq<Holdings>, events: seq<Event>, n: nat)
    requires Service(holdings, events) && n < |holdings|
    ensures holdings[n].free + holdings[n].held == holdings[0].free
    ensures holdings[n].free !! holdings[n].held
  {
    if n > 0 {
      ServiceConserves(holdings, events, n - 1);
      assert Serves(holdings[n - 1], events[n - 1], holdings[n]);
    }
  }

  /** A frame that stays unfreed stays held. */
  lemma {:induction false} StaysHeld(holdings: seq<Holdings>, events: seq<Event>, i: nat, j: nat)
    requires Service(holdings, events) && i < j < |holdings| && events[i].Got?
    requires forall k :: i < k < j ==> events[k] != Freed(events[i].frame)
    ensures events[i].frame in holdings[j].held
    decreases j
  {
    assert Serves(holdings[j - 1], events[j - 1], holdings[j]);
    if j > i + 1 {
      StaysHeld(holdings, events, i, j - 1);
    }
  }

  /** No page is handed out twice without a free in between. */
  lemma {:induction false} NoDoubleHandout(holdings: seq<Holdings>, events: seq<Event>, i: nat, j: nat)
    requires Service(holdings, events) && i < j < |events|
    requires events[i].Got? && events[j].Got? && events[i].frame == events[j].frame
    ensures exists k :: i < k < j && events[k] == Freed(events[i].frame)
  {
    ServiceConserves(holdings, events, j);
    assert Serves(holdings[j], events[j], holdings[j + 1]);
    if forall k :: i < k < j ==> events[k] != Freed(events[i].frame) {
      StaysHeld(holdings, events, i, j);
    }
  }

  ghost predicate ServiceAfterInit(memmap: seq<Entry>, host: nat, holdings: seq<Holdings>, events: seq<Event>)
    requires host < |memmap|
  {
    Service(holdings, events) && holdings[0].free == FreeAfterInit(memmap, host)
  }

  /** Every page handed out after an init lies in a usable region. */
  lemma {:induction false} HandedOutPagesAreFree(memmap: seq<Entry>, host: nat, holdings: seq<Holdings>,
          events: seq<Event>, i: nat)
    requires host < |memmap| && i < |events| && events[i].Got?
    requires ServiceAfterInit(memmap, host, holdings, events)
    ensures events[i].frame in FreeAfterInit(memmap, host) && events[i].frame in UsableFrames(memmap)
  {
    hide UsableFrames, Required;
    ServiceConserves(holdings, events, i);
    assert Serves(holdings[i], events[i], holdings[i + 1]);
  }

  /** No event hands out a page that holds some of the allocator's data. */
  ghost predicate KeepsData(memmap: seq<Entry>, host: nat, events: seq<Event>)
    requires host < |memmap|
  {
    forall i :: 0 <= i < |events| && events[i].Got? ==> !HoldsMetadata(memmap, memmap[host].base, events[i].frame)
  }

  /** After an init no page ever handed out holds any of the allocator's data, over every run, exactly
      when the data does not spill. */
  lemma {:induction false} HandedOutPagesAreSafe(memmap: seq<Entry>, host: nat)
    requires WellFormed(memmap) && IsHost(memmap, host)
    ensures (forall holdings, events :: ServiceAfterInit(memmap, host, holdings, events)
               ==> KeepsData(memmap, host, events))
            <==> !Spills(memmap, host)
  {
    hide WellFormed, Required, SumLengths, HoldsMetadata, FreeAfterInit, Serves, Spills;
    FreePagesHoldNoMetadata(memmap, host);
    if Spills(memmap, host) {
      var f :| f in FreeAfterInit(memmap, host) && HoldsMetadata(memmap, memmap[host].base, f);
      var events := [Got(f)];
      var holdings := FirstHandout(FreeAfterInit(memmap, host), f);
      assert ServiceAfterInit(memmap, host, holdings, events) && events[0] == Got(f);
    } else {
      forall holdings, events: seq<Event> | ServiceAfterInit(memmap, host, holdings, events)
        ensures KeepsData(memmap, host, events)
      {
        forall i | 0 <= i < |events| && events[i].Got?
          ensures !HoldsMetadata(memmap, memmap[host].base, events[i].frame)
        {
          HandedOutPagesAreFree(memmap, host, holdings, events, i);
        }
      }
    }
  }

  lemma {:induction false} FirstHandout(free: set<nat>, f: nat) returns (holdings: seq<Holdings>)
    requires f in free
    ensures |holdings| > 0 && holdings[0].free == free && Service(holdings, [Got(f)])
  {
    holdings := [Holdings(free, {}), Holdings(free - {f}, {f})];
  }

  // ---------- The allocator runs like that ----------

  datatype Request = WantPage | GiveBack(frame: nat)

  lemma {:induction false} ServiceExtends(holdings: seq<Holdings>, events: seq<Event>, e: Event, b: Holdings)
    requires Service(holdings, events) && Serves(holdings[|events|], e, b)
    ensures Service(holdings + [b], events + [e])
  {
    hide Serves;
    var ms, es := holdings + [b], events + [e];
    forall i | 0 <= i < |es| ensures Serves(ms[i], es[i], ms[i + 1]) {
      assert i < |events| ==> Serves(holdings[i], events[i], holdings[i + 1]);
    }
  }

  /** What a request may come to. A page that is not held is not given back: such a request is
      ignored. */
  predicate Answers(r: Request, e: Event, a: Holdings) {
    match r
    case WantPage => e.Got? || e.OutOfMemory?
    case GiveBack(f) => e == if f in a.held then Freed(f) else Ignored
  }

  /** One request. */
  method ServeOne(pmm: P.Pmm, request: Request, held: set<nat>) returns (e: Event, held': set<nat>)
    requires pmm.Valid() && held <= pmm.Managed() && held !! pmm.FreeFrames()
    modifies pmm.Repr
    ensures pmm.Valid() && pmm.Repr == old(pmm.Repr) && pmm.Managed() == old(pmm.Managed())
    ensures Answers(request, e, Holdings(old(pmm.FreeFrames()), held))
    ensures Serves(Holdings(old(pmm.FreeFrames()), held), e, Holdings(pmm.FreeFrames(), held'))
  {
    hide P.FreeOf, P.ManagedOf, P.Good;
    match request {
      case WantPage =>
        var address := pmm.Alloc();
        if address == 0 {
          return OutOfMemory, held;
        }
        return Got(address / 4096), held + {address / 4096};
      case GiveBack(frame) =>
        if frame !in held {
          return Ignored, held;
        }
        pmm.ManagedInRegion(frame);
        var err := pmm.Free(4096 * frame);
        return Freed(frame), held - {frame};
    }
  }

  /** Any sequence of requests to the allocator is such a run, in which every request is answered. */
  method Serve(pmm: P.Pmm, requests: seq<Request>) returns (events: seq<Event>, ghost holdings: seq<Holdings>)
    requires pmm.Valid()
    modifies pmm.Repr
    ensures pmm.Valid() && pmm.Repr == old(pmm.Repr) && Service(holdings, events)
    ensures holdings[0].free == old(pmm.FreeFrames()) && holdings[|events|].free == pmm.FreeFrames()
    ensures |events| == |requests|
    ensures forall i :: 0 <= i < |requests| ==> Answers(requests[i], events[i], holdings[i])
  {
    hide P.FreeOf, P.ManagedOf, P.Good, Service, Serves, Answers;
    var held: set<nat> := {};
    events := [];
    holdings := [Holdings(pmm.FreeFrames(), {})];
    ServiceBegins(holdings);
    pmm.FreeIsManaged();
    while |events| < |requests|
      invariant |events| <= |requests| && pmm.Valid()
      invariant pmm.Repr == old(pmm.Repr) && pmm.Managed() == old(pmm.Managed())
      invariant Service(holdings, events) && |holdings| == |events| + 1
      invariant holdings[0].free == old(pmm.FreeFrames()) && holdings[|events|] == Holdings(pmm.FreeFrames(), held)
      invariant forall i :: 0 <= i < |events| ==> Answers(requests[i], events[i], holdings[i])
    {
      ServiceConserves(holdings, events, |events|);
      var e;
      e, held := ServeOne(pmm, requests[|events|], held);
      ServiceExtends(holdings, events, e, Holdings(pmm.FreeFrames(), held));
      events, holdings := events + [e], holdings + [Holdings(pmm.FreeFrames(), held)];
    }
  }

  // ---------- A run that hands out every page ----------

  /** A held frame was handed out at some time. */
  lemma {:induction false} HeldWasGot(holdings: seq<Holdings>, events: seq<Event>, n: nat, f: nat)
    requires Service(holdings, events) && n < |holdings| && f in holdings[n].held
    ensures exists i :: 0 <= i < n && events[i] == Got(f)
  {
    if n > 0 {
      assert Serves(holdings[n - 1], events[n - 1], holdings[n]);
      if f in holdings[n - 1].held {
        HeldWasGot(holdings, events, n - 1, f);
      } else {
        assert events[n - 1] == Got(f);
      }
    }
  }

  lemma {:induction false} FreeRunsOut(holdings: seq<Holdings>, events: seq<Event>, requests: seq<Request>, n: nat)
    requires Service(holdings, events) && n <= |events| == |requests|
    requires forall i :: 0 <= i < |requests| ==> requests[i] == WantPage && Answers(requests[i], events[i], holdings[i])
    ensures holdings[n].free == {} || |holdings[n].free| + n <= |holdings[0].free|
  {
    if n > 0 {
      FreeRunsOut(holdings, events, requests, n - 1);
      assert Serves(holdings[n - 1], events[n - 1], holdings[n]);
      assert Answers(requests[n - 1], events[n - 1], holdings[n - 1]);
    }
  }

  /** If pages are only wanted, and as often as there are free ones, every free page is handed out. */
  lemma {:induction false} EveryPageIsHandedOut(holdings: seq<Holdings>, events: seq<Event>, requests: seq<Request>,
          f: nat)
    requires Service(holdings, events) && |events| == |requests| && |requests| >= |holdings[0].free|
    requires forall i :: 0 <= i < |requests| ==> requests[i] == WantPage && Answers(requests[i], events[i], holdings[i])
    requires f in holdings[0].free
    ensures exists i :: 0 <= i < |events| && events[i] == Got(f)
  {
    hide Service, Serves, Answers;
    FreeRunsOut(holdings, events, requests, |events|);
    LastHolding(holdings, events);
    ServiceConserves(holdings, events, |events|);
    HeldWasGot(holdings, events, |events|, f);
  }

  lemma {:induction false} LastHolding(holdings: seq<Holdings>, events: seq<Event>)
    requires Service(holdings, events)
    ensures |holdings| == |events| + 1
  {
  }

  /** pmm_init, and then any requests: whatever is handed out is usable memory, and holds none of the
      allocator's data if that does not spill. */
  method InitAndServe(pmm: P.Pmm, memmap: seq<Entry>, requests: seq<Request>)
    returns (err: P.ErrorCode, events: seq<Event>, ghost host: nat, ghost holdings: seq<Holdings>)
    requires pmm in pmm.Repr && WellFormed(memmap)
    modifies pmm
    ensures err == P.PmmOk <==> exists i :: IsHost(memmap, i)
    ensures err == P.PmmOk ==>
              && pmm.Valid() && IsHost(memmap, host) && Service(holdings, events) && |events| == |requests|
              && holdings[0].free == FreeAfterInit(memmap, host) && holdings[|events|].free == pmm.FreeFrames()
              && (forall i :: 0 <= i < |requests| ==> Answers(requests[i], events[i], holdings[i]))
              && (forall i :: 0 <= i < |events| && events[i].Got? ==> events[i].frame in UsableFrames(memmap))
              && (!Spills(memmap, host) ==> KeepsData(memmap, host, events))
    ensures err == P.PmmOk && Spills(memmap, host) && |requests| >= |FreeAfterInit(memmap, host)|
            && (forall r :: r in requests ==> r == WantPage)
            ==> !KeepsData(memmap, host, events)
  {
    hide P.FreeOf, P.ManagedOf, P.Good, Answers, WellFormed, Required, UsableFrames, Spills, KeepsData;
    hide FreeAfterInit;
    events, holdings := [], [];
    err, host := pmm.Init(memmap);
    if err == P.PmmOk {
      events, holdings := Serve(pmm, requests);
      assert ServiceAfterInit(memmap, host, holdings, events);
      HandedOutPagesAreSafe(memmap, host);
      forall i | 0 <= i < |events| && events[i].Got? ensures events[i].frame in UsableFrames(memmap) {
        HandedOutPagesAreFree(memmap, host, holdings, events, i);
      }
      if Spills(memmap, host) && |requests| >= |FreeAfterInit(memmap, host)|
         && forall r :: r in requests ==> r == WantPage {
        assert forall i :: 0 <= i < |requests| ==> requests[i] in requests;
        SpilledDataIsHandedOut(memmap, host, holdings, events, requests);
      }
    }
  }

  /** Where the data spills, wanting pages until none is left gets a page that holds some of it. */
  lemma {:induction false} SpilledDataIsHandedOut(memmap: seq<Entry>, host: nat, holdings: seq<Holdings>,
          events: seq<Event>, requests: seq<Request>)
    requires WellFormed(memmap) && IsHost(memmap, host) && Spills(memmap, host)
    requires ServiceAfterInit(memmap, host, holdings, events)
    requires |events| == |requests| && |requests| >= |FreeAfterInit(memmap, host)|
    requires forall i :: 0 <= i < |requests| ==> requests[i] == WantPage && Answers(requests[i], events[i], holdings[i])
    ensures !KeepsData(memmap, host, events)
  {
    hide WellFormed, Required, SumLengths, HoldsMetadata, FreeAfterInit, Service, Spills, Answers;
    FreePagesHoldNoMetadata(memmap, host);
    var f :| f in FreeAfterInit(memmap, host) && HoldsMetadata(memmap, memmap[host].base, f);
    LastHolding(holdings, events);
    EveryPageIsHandedOut(holdings, events, requests, f);
    var i :| 0 <= i < |events| && events[i] == Got(f);
    assert events[i].Got?;
  }

  lemma {:induction false} ServiceBegins(holdings: seq<Holdings>)
    requires |holdings| == 1 && holdings[0].held == {}
    ensures Service(holdings, [])
  {
  }
}
