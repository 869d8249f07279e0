/** The process-wide page-lock registry: `mlock` does not stack and allocations share pages,
    so one reference count per page decides when the operating system is called.

    Pages are named by their index, address / pageSize; a page is the index its base address has.
    The loops keep a cursor `range_first`, for which 0 means "no open run". */
module PageLock {
  import opened Common

  const UINTPTR_MAX: nat := 0xFFFF_FFFF_FFFF_FFFF

  type Refs = map<nat, Positive>

  /** The pages first, first + 1, ..., stop - 1. */
  datatype Run = Run(first: nat, stop: nat) {
    predicate Covers(page: nat) { first <= page < stop }
    function Pages(): set<nat> { set p | first <= p < stop && Covers(p) }
  }

  function Count(refs: Refs, page: nat): nat {
    if page in refs then refs[page] else 0
  }

  function AddRefs(refs: Refs, run: Run): Refs {
    map p | p in refs.Keys + run.Pages() :: Count(refs, p) + if run.Covers(p) then 1 else 0
  }

  function DropRefs(refs: Refs, run: Run): Refs {
    map p | p in refs && !(run.Covers(p) && refs[p] == 1) ::
      if run.Covers(p) then refs[p] - 1 else refs[p]
  }

  /** The pages of `run` that only one reference holds. Page 0 is never among them:
      the scanning loops cannot open a run at it. */
  function SingleRef(refs: Refs, run: Run): set<nat> {
    set p | p in run.Pages() && p != 0 && Count(refs, p) == 1
  }

  // ---- Coalesced runs -------------------------------------------------------------------

  function PagesOf(runs: seq<Run>): set<nat> {
    if runs == [] then {} else PagesOf(runs[..|runs| - 1]) + runs[|runs| - 1].Pages()
  }

  /** `runs` splits `pages` into its maximal runs: nonempty, ascending, with a gap between any two. */
  predicate Coalesced(runs: seq<Run>, pages: set<nat>) {
    && (forall i :: 0 <= i < |runs| ==> runs[i].first < runs[i].stop)
    && (forall i, j :: 0 <= i < j < |runs| ==> runs[i].stop < runs[j].first)
    && PagesOf(runs) == pages
  }

  lemma CoalescedSnoc(runs: seq<Run>, pages: set<nat>, run: Run)
    requires Coalesced(runs, pages)
    requires run.first < run.stop
    requires runs != [] ==> runs[|runs| - 1].stop < run.first
    ensures Coalesced(runs + [run], pages + run.Pages())
  {
    assert (runs + [run])[..|runs|] == runs;
  }

  // ---- Live ranges and the invariant ----------------------------------------------------

  /** How many of the live locked ranges cover `page`. */
  function Holders(live: seq<Run>, page: nat): nat {
    if live == [] then 0
    else Holders(live[..|live| - 1], page) + if live[|live| - 1].Covers(page) then 1 else 0
  }

  function IndexOf(live: seq<Run>, run: Run): (i: nat)
    requires run in live
    ensures i < |live| && live[i] == run
  {
    if live[|live| - 1] == run then |live| - 1 else IndexOf(live[..|live| - 1], run)
  }

  /** `live` without one occurrence of `run`. */
  function Without(live: seq<Run>, run: Run): seq<Run> {
    if run in live then var i := IndexOf(live, run); live[..i] + live[i + 1..] else live
  }

  datatype State = State(refs: Refs, locked: set<nat>, live: seq<Run>)

  /** Every page is counted once per live range over it, and every counted page is locked. */
  ghost predicate Inv(s: State) {
    && (forall p: nat :: Count(s.refs, p) == Holders(s.live, p))
    && (forall p :: p in s.refs && p != 0 ==> p in s.locked)
  }

  /** Without `mem_forget_lock` the locked pages are exactly the counted ones. */
  predicate Exact(s: State) {
    s.locked == s.refs.Keys - {0}
  }

  const EMPTY := State(map[], {}, [])

  // ---- Runs of calls --------------------------------------------------------------------

  /** What one call did. `Refused(run, at)`: the system refused the run of new pages starting at `at`. */
  datatype Event =
    | Nothing
    | MutexFailed
    | Locked(run: Run)
    | Refused(run: Run, at: nat)
    | Unlocked(run: Run)
    | Forgotten(run: Run)

  /** A caller only gives back a range it holds. */
  predicate Legal(s: State, e: Event) {
    match e
    case Unlocked(run) => run in s.live
    case Forgotten(run) => run in s.live
    case Refused(run, at) => run.first <= at < run.stop
    case _ => true
  }

  function Step(s: State, e: Event): State {
    match e
    case Nothing => s
    case MutexFailed => s
    case Locked(run) =>
      State(AddRefs(s.refs, run), s.locked + SingleRef(AddRefs(s.refs, run), run), s.live + [run])
    case Refused(run, at) =>
      s.(locked := s.locked - SingleRef(AddRefs(s.refs, run), Run(run.first, at)))
    case Unlocked(run) =>
      State(DropRefs(s.refs, run), s.locked - SingleRef(s.refs, run), Without(s.live, run))
    case Forgotten(run) =>
      s.(refs := DropRefs(s.refs, run), live := Without(s.live, run))
  }

  ghost predicate Reaches(s: State, events: seq<Event>, t: State)
    decreases |events|
  {
    if events == [] then s == t
    else Legal(s, events[0]) && Reaches(Step(s, events[0]), events[1..], t)
  }

  lemma {:induction false} HoldersSplit(a: seq<Run>, b: seq<Run>, page: nat)
    ensures Holders(a + b, page) == Holders(a, page) + Holders(b, page)
  {
    if b == [] {
      assert a + b == a;
    } else {
      HoldersSplit(a, b[..|b| - 1], page);
      assert (a + b)[..|a + b| - 1] == a + b[..|b| - 1];
    }
  }

  lemma HoldersOfOne(run: Run, page: nat)
    ensures Holders([run], page) == if run.Covers(page) then 1 else 0
  {
    assert [run][..0] == [];
  }

  lemma HoldersWithout(live: seq<Run>, run: Run, page: nat)
    requires run in live
    ensures Holders(live, page) == Holders(Without(live, run), page) + if run.Covers(page) then 1 else 0
  {
    var i := IndexOf(live, run);
    HoldersSplit(live[..i], live[i + 1..], page);
    HoldersSplit(live[..i], [run], page);
    HoldersSplit(live[..i] + [run], live[i + 1..], page);
    HoldersOfOne(run, page);
    assert live == (live[..i] + [run]) + live[i + 1..];
  }

  lemma HoldersPositive(live: seq<Run>, run: Run, page: nat)
    requires run in live && run.Covers(page)
    ensures Holders(live, page) > 0
  {
    HoldersWithout(live, run, page);
  }

  lemma StepKeepsInv(s: State, e: Event)
    requires Inv(s) && Legal(s, e)
    ensures Inv(Step(s, e))
    ensures Exact(s) && !e.Forgotten? ==> Exact(Step(s, e))
  {
    forall p: nat ensures Count(Step(s, e).refs, p) == Holders(Step(s, e).live, p) {
      StepKeepsCount(s, e, p);
    }
    StepKeepsLocks(s, e);
    hide Step, Count, Holders, Legal;
  }

  lemma StepKeepsCount(s: State, e: Event, p: nat)
    requires Count(s.refs, p) == Holders(s.live, p) && Legal(s, e)
    ensures Count(Step(s, e).refs, p) == Holders(Step(s, e).live, p)
  {
    hide Holders, Without, SingleRef;
    match e
    case Locked(run) =>
      HoldersSplit(s.live, [run], p);
      HoldersOfOne(run, p);
    case Unlocked(run) => HoldersWithout(s.live, run, p);
    case Forgotten(run) => HoldersWithout(s.live, run, p);
    case _ =>
  }

  lemma StepKeepsLocks(s: State, e: Event)
    requires Inv(s) && Legal(s, e)
    ensures forall p :: p in Step(s, e).refs && p != 0 ==> p in Step(s, e).locked
    ensures Exact(s) && !e.Forgotten? ==> Exact(Step(s, e))
  {
    hide Holders, Without;
  }

  /** Over every run of lock, unlock and forget calls, whatever the system refuses: the counts are
      the live ranges, counted pages stay locked, and only `Forgotten` can leave a stray lock behind. */
  lemma {:induction false} EveryRunKeepsInv(s: State, events: seq<Event>, t: State)
    requires Inv(s) && Reaches(s, events, t)
    ensures Inv(t)
    ensures Exact(s) && (forall e :: e in events ==> !e.Forgotten?) ==> Exact(t)
    decreases |events|
  {
    if events != [] {
      StepKeepsInv(s, events[0]);
      EveryRunKeepsInv(Step(s, events[0]), events[1..], t);
    }
  }

  /** Giving one range back never unlocks a page that another live range shares. */
  lemma NeighbourStaysLocked(s: State, mine: Run, other: Run, page: nat)
    requires Inv(s) && mine in s.live && other in Without(s.live, mine)
    requires other.Covers(page) && page != 0
    ensures page in Step(s, Unlocked(mine)).locked
    ensures page in Step(s, Forgotten(mine)).locked
  {
    StepKeepsInv(s, Unlocked(mine));
    HoldersPositive(Without(s.live, mine), other, page);
    HoldersWithout(s.live, mine, page);
  }

  /** The exclusion of page 0 is needed: the code counts it but never asks the system to lock it. */
  lemma PageZeroIsCountedButNotLocked()
    ensures var s := Step(EMPTY, Locked(Run(0, 2)));
            Inv(s) && 0 in s.refs && 0 !in s.locked && 1 in s.locked
  {
    StepKeepsInv(EMPTY, Locked(Run(0, 2)));
    var s := Step(EMPTY, Locked(Run(0, 2)));
    assert Run(0, 2).Covers(1) && 1 in Run(0, 2).Pages();
    assert 1 in SingleRef(s.refs, Run(0, 2));
  }

  /** Giving back a range that was never locked can unlock a neighbour: the caller's record matters. */
  lemma UnmatchedUnlockExposesNeighbour()
    ensures exists s: State, run: Run, page: nat ::
              Inv(s) && run !in s.live && page != 0 && Holders(s.live, page) > 0 &&
              page !in Step(s, Unlocked(run)).locked
  {
    var s := Step(EMPTY, Locked(Run(1, 3)));
    StepKeepsInv(EMPTY, Locked(Run(1, 3)));
    var run := Run(1, 2);
    HoldersPositive(s.live, Run(1, 3), 1);
    assert 1 in run.Pages() && 1 in SingleRef(s.refs, run);
    assert 1 !in Step(s, Unlocked(run)).locked;
  }

  lemma AddNone(refs: Refs, page: nat)
    ensures AddRefs(refs, Run(page, page)) == refs && Run(page, page).Pages() == {}
  {}

  lemma AddOneMore(refs: Refs, first: nat, page: nat)
    requires first <= page
    ensures AddRefs(AddRefs(refs, Run(first, page)), Run(page, page + 1)) == AddRefs(refs, Run(first, page + 1))
    ensures page in AddRefs(refs, Run(first, page)) <==> page in refs
    ensures Run(first, page + 1).Pages() == Run(first, page).Pages() + {page}
  {}

  /** The pages of `run` that nobody counts yet. */
  function NewPages(refs: Refs, run: Run): set<nat> {
    set p | p in run.Pages() && p != 0 && p !in refs
  }

  lemma NewPagesAreAbsent(refs: Refs, run: Run)
    ensures SingleRef(AddRefs(refs, run), run) == NewPages(refs, run)
    ensures run.Pages() <= refs.Keys ==>
              SingleRef(AddRefs(refs, run), run) == {} && Coalesced([], SingleRef(AddRefs(refs, run), run))
  {}

  lemma RefusalUndone(s: State, run: Run, at: nat)
    requires run.first <= at <= run.stop && Exact(s)
    ensures Step(s, Refused(run, at)) == s
  {
    assert s.locked !! SingleRef(AddRefs(s.refs, run), Run(run.first, at));
  }

  lemma DropOneMore(refs: Refs, first: nat, page: nat)
    requires first <= page
    ensures DropRefs(DropRefs(refs, Run(first, page)), Run(page, page + 1)) == DropRefs(refs, Run(first, page + 1))
    ensures Count(DropRefs(refs, Run(first, page)), page) == Count(refs, page)
  {}

  lemma DropUndoesAdd(refs: Refs, run: Run)
    ensures DropRefs(AddRefs(refs, run), run) == refs
  {}

  // ---- Bytes and pages ------------------------------------------------------------------

  /** Byte `a` lies in page `page`. */
  predicate ByteIn(a: nat, page: nat, size: Positive) { page * size <= a < page * size + size }

  /** Some byte of the block of `n` bytes at `addr` lies in `page`. */
  ghost predicate Touches(addr: nat, n: nat, page: nat, size: Positive) {
    exists a: nat :: addr <= a < addr + n && ByteIn(a, page, size)
  }

  lemma ByteInIff(a: nat, page: nat, size: Positive)
    ensures ByteIn(a, page, size) <==> a / size == page
  {
    var q := a / size;
    assert a == q * size + a % size;
    if page < q { MulAscends(size, page + 1, q); }
    if q < page { MulAscends(size, q + 1, page); }
  }

  /** `run` is exactly the pages with a byte of the block in them. */
  ghost predicate Spans(run: Run, addr: nat, n: nat, size: Positive) {
    forall page: nat :: run.Covers(page) <==> Touches(addr, n, page, size)
  }

  lemma QuotientsSpan(addr: nat, n: nat, size: Positive)
    requires n >= 1
    ensures Spans(Run(addr / size, (addr + n - 1) / size + 1), addr, n, size)
  {
    var last := addr + n - 1;
    forall page: nat | addr / size <= page <= last / size
      ensures Touches(addr, n, page, size)
    {
      MulAscends(size, page, last / size);
      if page == addr / size {
        ByteInIff(addr, page, size);
      } else {
        MulAscends(size, addr / size + 1, page);
        assert ByteIn(page * size, page, size);
      }
    }
    forall page: nat | Touches(addr, n, page, size)
      ensures addr / size <= page <= last / size
    {
      var a :| addr <= a < addr + n && ByteIn(a, page, size);
      ByteInIff(a, page, size);
      DivMonotone(addr, a, size);
      DivMonotone(a, last, size);
    }
  }

  /** What locking a block means for each page: one reference more exactly where it has a byte, and a newly
      counted page is locked; with that, every byte of it lies on a locked page. */
  lemma LockingCoversTheBytes(s: State, run: Run, addr: nat, n: nat, size: Positive)
    requires Spans(run, addr, n, size)
    ensures var t := Step(s, Locked(run));
            && (forall p: nat :: Count(t.refs, p) == Count(s.refs, p) + if Touches(addr, n, p, size) then 1 else 0)
            && (forall p: nat :: p in t.locked <==>
                  p in s.locked || (Touches(addr, n, p, size) && p != 0 && Count(s.refs, p) == 0))
            && (Inv(s) ==> BytesLocked(t.locked, addr, n, size))
  {
    hide Touches, Holders;
    var t := Step(s, Locked(run));
    forall a: nat, p: nat | addr <= a < addr + n && ByteIn(a, p, size) && p != 0 && Inv(s)
      ensures p in t.locked
    {
      assert Touches(addr, n, p, size) by { TouchedBy(addr, n, p, size, a); }
      assert run.Covers(p);
      if p in s.refs { assert p in s.locked; }
    }
  }

  lemma TouchedBy(addr: nat, n: nat, page: nat, size: Positive, a: nat)
    requires addr <= a < addr + n && ByteIn(a, page, size)
    ensures Touches(addr, n, page, size)
  {}

  /** Every byte of the block lies on a locked page, page 0 apart. */
  ghost predicate BytesLocked(locked: set<nat>, addr: nat, n: nat, size: Positive) {
    forall a: nat, p: nat :: addr <= a < addr + n && ByteIn(a, p, size) && p != 0 ==> p in locked
  }

  /** What giving a block back means for each page: one reference less exactly where it has a byte, and a
      page that nobody counts any more is unlocked. */
  lemma UnlockingCoversTheBytes(s: State, run: Run, addr: nat, n: nat, size: Positive)
    requires Spans(run, addr, n, size)
    ensures var t := Step(s, Unlocked(run));
            && OneLess(s.refs, t.refs, addr, n, size)
            && (forall p: nat :: p in t.locked <==>
                  p in s.locked && !(Touches(addr, n, p, size) && p != 0 && Count(s.refs, p) == 1))
    ensures OneLess(s.refs, Step(s, Forgotten(run)).refs, addr, n, size)
  {
    hide Touches, Without;
  }

  /** Every byte of a block whose range is held lies on a locked page, whatever else was locked and given back. */
  lemma LiveBlocksAreLocked(s: State, run: Run, addr: nat, n: nat, size: Positive)
    requires Inv(s) && run in s.live && Spans(run, addr, n, size)
    ensures BytesLocked(s.locked, addr, n, size)
  {
    hide Touches;
    forall a: nat, p: nat | addr <= a < addr + n && ByteIn(a, p, size) && p != 0
      ensures p in s.locked
    {
      TouchedBy(addr, n, p, size, a);
      HoldersPositive(s.live, run, p);
      assert Count(s.refs, p) > 0;
    }
  }

  /** Exactly the pages with a byte of the block in them have lost a reference, those that had one. */
  ghost predicate OneLess(before: Refs, after: Refs, addr: nat, n: nat, size: Positive) {
    forall p: nat ::
      Count(after, p) == Count(before, p) - if Touches(addr, n, p, size) && Count(before, p) > 0 then 1 else 0
  }

  // ---- The registry ---------------------------------------------------------------------

  class PageLockRegistry {
    const pageSize: Positive
    var refs: Refs
    var osLocked: set<nat>         // the pages the operating system holds locked
    ghost var locks: seq<Run>      // every granted mlock call, oldest first
    ghost var unlocks: seq<Run>    // every munlock call, oldest first
    ghost var live: seq<Run>       // the ranges callers hold
    ghost var refusals: nat        // how often the mutex, the map or the system said no

    ghost function Abs(): State reads this {
      State(refs, osLocked, live)
    }

    constructor (pageSize: Positive)
      ensures this.pageSize == pageSize && Abs() == EMPTY && Inv(Abs()) && Exact(Abs())
    {
      this.pageSize := pageSize;
      refs, osLocked, locks, unlocks, live, refusals := map[], {}, [], [], [], 0;
    }

    /** Locking the registry's mutex may throw. */
    method TakeMutex() returns (failed: bool)
      modifies `refusals
      ensures refusals == old(refusals) + if failed then 1 else 0
    {
      failed := *;
      if failed { refusals := refusals + 1; }
    }

    /** POSIX `mlock`: the whole range, or refused with nothing changed. */
    method OsLockRange(first: nat, stop: nat) returns (ok: bool)
      modifies `osLocked, `locks, `refusals
      ensures refusals == old(refusals) + if ok then 0 else 1
      ensures osLocked == old(osLocked) + if ok then Run(first, stop).Pages() else {}
      ensures locks == old(locks) + if ok then [Run(first, stop)] else []
    {
      ok := *;
      if ok {
        osLocked := osLocked + Run(first, stop).Pages();
        locks := locks + [Run(first, stop)];
      } else {
        refusals := refusals + 1;
      }
    }

    method OsUnlockRange(first: nat, stop: nat)
      modifies `osLocked, `unlocks
      ensures osLocked == old(osLocked) - Run(first, stop).Pages()
      ensures unlocks == old(unlocks) + [Run(first, stop)]
    {
      osLocked := osLocked - Run(first, stop).Pages();
      unlocks := unlocks + [Run(first, stop)];
    }

    /** Gives one reference back; `released` when it was the last. A page not counted is left alone. */
    method DropPageRef(page: nat) returns (released: bool)
      modifies `refs
      ensures refs == DropRefs(old(refs), Run(page, page + 1))
      ensures released <==> Count(old(refs), page) == 1
    {
      released := false;
      if page in refs {
        if refs[page] == 1 {
          refs := refs - {page};
          released := true;
        } else {
          refs := refs[page := refs[page] - 1];
        }
      }
    }

    method RollbackPageRefs(first: nat, stop: nat)
      requires first <= stop
      modifies `refs
      ensures refs == DropRefs(old(refs), Run(first, stop))
    {
      var page := first;
      while page != stop
        invariant first <= page <= stop
        invariant refs == DropRefs(old(refs), Run(first, page))
        decreases stop - page
      {
        DropOneMore(old(refs), first, page);
        var _ := DropPageRef(page);
        page := page + 1;
      }
    }

    /** The map insertion may run out of memory. */
    method AddPageRef(page: nat, added: bool) returns (ok: bool, addedNow: bool)
      modifies `refs, `refusals
      ensures refusals == old(refusals) + if ok then 0 else 1
      ensures ok ==> refs == AddRefs(old(refs), Run(page, page + 1))
      ensures ok ==> addedNow == (added || page !in old(refs))
      ensures !ok ==> refs == old(refs)
    {
      addedNow := added;
      if page in refs {
        refs := refs[page := refs[page] + 1];
        return true, added;
      }
      ok := *;
      if ok {
        refs, addedNow := refs[page := 1], true;
      } else {
        refusals := refusals + 1;
      }
    }

    method AddPageRefs(first: nat, last: nat) returns (success: bool, added: bool)
      requires first <= last
      modifies `refs, `refusals
      ensures refusals == old(refusals) + if success then 0 else 1
      ensures success ==> refs == AddRefs(old(refs), Run(first, last + 1))
      ensures success ==> (added <==> !(Run(first, last + 1).Pages() <= old(refs).Keys))
      ensures !success ==> refs == old(refs)
    {
      hide AddRefs, DropRefs;
      AddNone(refs, first);
      added := false;
      var page := first;
      while true
        invariant first <= page <= last
        invariant refs == AddRefs(old(refs), Run(first, page)) && refusals == old(refusals)
        invariant added <==> !(Run(first, page).Pages() <= old(refs).Keys)
        decreases last - page
      {
        AddOneMore(old(refs), first, page);
        var ok;
        ok, added := AddPageRef(page, added);
        if !ok {
          RollbackPageRefs(first, page);
          DropUndoesAdd(old(refs), Run(first, page));
          return false, false;
        }
        if page == last { break; }
        page := page + 1;
      }
      success := true;
    }

    predicate IsNewPage(page: nat) reads `refs {
      page in refs && refs[page] == 1
    }

    method UnlockNewPagesBefore(first: nat, stop: nat) returns (ghost runs: seq<Run>)
      requires first <= stop
      modifies `osLocked, `unlocks
      ensures osLocked == old(osLocked) - SingleRef(refs, Run(first, stop))
      ensures unlocks == old(unlocks) + runs && Coalesced(runs, SingleRef(refs, Run(first, stop)))
    {
      hide Scan, Coalesced, SingleRef, DropRefs;
      var rangeFirst := 0;
      var page := first;
      ghost var done;
      runs, done := ScanStart(refs, first);
      while page != stop
        invariant first <= page <= stop && 0 <= rangeFirst
        invariant Scan(refs, first, page, rangeFirst, runs, done)
        invariant osLocked == old(osLocked) - done
        invariant unlocks == old(unlocks) + runs
        decreases stop - page
      {
        ScanOpen(refs, first, page, rangeFirst, runs, done);
        ScanOne(refs, first, page, rangeFirst, runs, done);
        if IsNewPage(page) {
          if rangeFirst == 0 { rangeFirst := page; }
        } else if rangeFirst != 0 {
          OsUnlockRange(rangeFirst, page);
          runs, done := runs + [Run(rangeFirst, page)], done + Run(rangeFirst, page).Pages();
          rangeFirst := 0;
        }
        page := page + 1;
      }
      ScanClose(refs, first, stop, rangeFirst, runs, done);
      if rangeFirst != 0 {
        OsUnlockRange(rangeFirst, stop);
        runs, done := runs + [Run(rangeFirst, stop)], done + Run(rangeFirst, stop).Pages();
      }
      assert osLocked == old(osLocked) - done;
    }

    /** Asks the system for the new pages, one call a maximal run. On a refusal every run granted
        before it is given back; `refused` is then where the refused run starts. */
    method LockNewPages(first: nat, last: nat) returns (ok: bool, ghost refused: nat, ghost runs: seq<Run>)
      requires first <= last
      modifies `osLocked, `locks, `unlocks, `refusals
      ensures locks == old(locks) + runs && refusals == old(refusals) + if ok then 0 else 1
      ensures ok ==>
                && osLocked == old(osLocked) + SingleRef(refs, Run(first, last + 1))
                && Coalesced(runs, SingleRef(refs, Run(first, last + 1)))
                && unlocks == old(unlocks)
      ensures !ok ==>
                && first <= refused <= last
                && osLocked == old(osLocked) - SingleRef(refs, Run(first, refused))
                && Coalesced(runs, SingleRef(refs, Run(first, refused)))
                && exists undone ::
                     unlocks == old(unlocks) + undone && Coalesced(undone, SingleRef(refs, Run(first, refused)))
    {
      hide Scan, Coalesced, SingleRef, DropRefs;
      var rangeFirst := 0;
      var page := first;
      ghost var done;
      runs, done := ScanStart(refs, first);
      while true
        invariant first <= page <= last && 0 <= rangeFirst
        invariant Scan(refs, first, page, rangeFirst, runs, done)
        invariant osLocked == old(osLocked) + done
        invariant locks == old(locks) + runs && unlocks == old(unlocks) && refusals == old(refusals)
        decreases last - page
      {
        ScanOpen(refs, first, page, rangeFirst, runs, done);
        ScanOne(refs, first, page, rangeFirst, runs, done);
        if IsNewPage(page) {
          if rangeFirst == 0 { rangeFirst := page; }
        } else if rangeFirst != 0 {
          var granted := OsLockRange(rangeFirst, page);
          if !granted {
            ghost var _ := UnlockNewPagesBefore(first, rangeFirst);
            return false, rangeFirst, runs;
          }
          runs, done := runs + [Run(rangeFirst, page)], done + Run(rangeFirst, page).Pages();
          rangeFirst := 0;
        }
        if page == last { break; }
        page := page + 1;
      }
      ScanOpen(refs, first, last + 1, rangeFirst, runs, done);
      ScanClose(refs, first, last + 1, rangeFirst, runs, done);
      if rangeFirst == 0 { return true, 0, runs; }
      var granted := OsLockRange(rangeFirst, last + 1);
      if granted { return true, 0, runs + [Run(rangeFirst, last + 1)]; }
      ghost var _ := UnlockNewPagesBefore(first, rangeFirst);
      return false, rangeFirst, runs;
    }

    /** Gives the references of a range back and unlocks, one call a maximal run, precisely
        the pages whose count reached zero. */
    method ReleasePageRefs(first: nat, last: nat) returns (ghost runs: seq<Run>)
      requires first <= last
      modifies `refs, `osLocked, `unlocks
      ensures refs == DropRefs(old(refs), Run(first, last + 1))
      ensures osLocked == old(osLocked) - SingleRef(old(refs), Run(first, last + 1))
      ensures unlocks == old(unlocks) + runs && Coalesced(runs, SingleRef(old(refs), Run(first, last + 1)))
    {
      hide Scan, Coalesced, SingleRef, DropRefs;
      var rangeFirst := 0;
      var page := first;
      ghost var done;
      runs, done := ScanStart(refs, first);
      while true
        invariant first <= page <= last && 0 <= rangeFirst
        invariant refs == DropRefs(old(refs), Run(first, page))
        invariant Scan(old(refs), first, page, rangeFirst, runs, done)
        invariant osLocked == old(osLocked) - done
        invariant unlocks == old(unlocks) + runs
        decreases last - page
      {
        ScanOne(old(refs), first, page, rangeFirst, runs, done);
        DropOneMore(old(refs), first, page);
        var released := DropPageRef(page);
        if released {
          if rangeFirst == 0 { rangeFirst := page; }
        } else if rangeFirst != 0 {
          OsUnlockRange(rangeFirst, page);
          runs, done := runs + [Run(rangeFirst, page)], done + Run(rangeFirst, page).Pages();
          rangeFirst := 0;
        }
        if page == last { break; }
        page := page + 1;
      }
      ScanClose(old(refs), first, last + 1, rangeFirst, runs, done);
      if rangeFirst != 0 {
        OsUnlockRange(rangeFirst, last + 1);
        runs, done := runs + [Run(rangeFirst, last + 1)], done + Run(rangeFirst, last + 1).Pages();
      }
      assert osLocked == old(osLocked) - done;
    }

    method ForgetPageRefs(first: nat, last: nat)
      requires first <= last
      modifies `refs
      ensures refs == DropRefs(old(refs), Run(first, last + 1))
    {
      var page := first;
      while true
        invariant first <= page <= last
        invariant refs == DropRefs(old(refs), Run(first, page))
        decreases last - page
      {
        DropOneMore(old(refs), first, page);
        var _ := DropPageRef(page);
        if page == last { break; }
        page := page + 1;
      }
    }

    function FirstPage(addr: nat): nat { addr / pageSize }

    function LastPage(addr: nat, n: nat): nat
      requires n >= 1
    {
      (addr + n - 1) / pageSize
    }

    predicate EndWraps(page: nat) { page * pageSize > UINTPTR_MAX - pageSize }

    /** The pages a block of n >= 1 bytes at `addr` touches. */
    function PageRun(addr: nat, n: nat): Run
      requires n >= 1
    {
      Run(FirstPage(addr), LastPage(addr, n) + 1)
    }

    lemma PageRunSpans(addr: nat, n: nat)
      requires n >= 1
      ensures Spans(PageRun(addr, n), addr, n, pageSize)
    {
      QuotientsSpan(addr, n, pageSize);
    }

    predicate InAddressSpace(addr: nat, n: nat) {
      addr != 0 && n != 0 && addr <= UINTPTR_MAX - (n - 1)
    }

    lemma PagesAscend(addr: nat, n: nat)
      requires n >= 1
      ensures FirstPage(addr) <= LastPage(addr, n)
    {
      DivMonotone(addr, addr + n - 1, pageSize);
    }

    /** Neither the block nor the end of its last page wraps around. */
    predicate Lockable(addr: nat, n: nat) {
      InAddressSpace(addr, n) && !EndWraps(LastPage(addr, n))
    }

    /** In terms of its bytes: none is at address 0 and none lies in the last page of the address space. */
    lemma LockableIff(addr: nat, n: nat)
      ensures Lockable(addr, n) <==>
                && addr != 0 && n != 0
                && (forall a: nat, p: nat :: addr <= a < addr + n && ByteIn(a, p, pageSize) ==>
                      p * pageSize + pageSize <= UINTPTR_MAX)
    {
      if n != 0 {
        var last := LastPage(addr, n);
        ByteInIff(addr + n - 1, last, pageSize);
        forall a: nat, p: nat | addr <= a < addr + n && ByteIn(a, p, pageSize)
          ensures p * pageSize <= last * pageSize
        {
          ByteInIff(a, p, pageSize);
          DivMonotone(a, addr + n - 1, pageSize);
          MulAscends(pageSize, p, last);
        }
      }
    }

    /** Counts a range and locks its new pages, or leaves everything as it was. */
    method LockPages(first: nat, last: nat) returns (ok: bool, ghost event: Event, ghost runs: seq<Run>)
      requires first <= last
      modifies this
      ensures Legal(old(Abs()), event) && Abs() == Step(old(Abs()), event)
      ensures if ok then event == Locked(Run(first, last + 1)) else event.Nothing? || event.Refused?
      ensures refusals == old(refusals) + if ok then 0 else 1
      ensures !ok ==> refs == old(refs) && live == old(live) && (Exact(old(Abs())) ==> osLocked == old(osLocked))
      ensures locks == old(locks) + runs
      ensures ok ==> unlocks == old(unlocks) && Coalesced(runs, NewPages(old(refs), Run(first, last + 1)))
    {
      hide Coalesced, SingleRef, DropRefs, AddRefs, NewPages;
      ghost var run := Run(first, last + 1);
      NewPagesAreAbsent(refs, run);
      var success, added := AddPageRefs(first, last);
      if !success { return false, Nothing, []; }
      if !added {
        live := live + [run];
        return true, Locked(run), [];
      }
      ghost var refused;
      ok, refused, runs := LockNewPages(first, last);
      if !ok {
        RollbackPageRefs(first, last + 1);
        DropUndoesAdd(old(refs), run);
        if Exact(old(Abs())) { RefusalUndone(old(Abs()), run, refused); }
        event := Refused(run, refused);
        return;
      }
      live := live + [run];
      event := Locked(run);
    }

    /** All or nothing. `event` says which of the outcomes of the state machine happened. It fails only on
        a block that wraps around, or when the mutex, the map or the system refuses once. */
    method MemLock(addr: nat, n: nat) returns (ok: bool, ghost event: Event, ghost runs: seq<Run>)
      modifies this
      ensures Legal(old(Abs()), event) && Abs() == Step(old(Abs()), event)
      ensures refusals >= old(refusals) && (ok <==> Lockable(addr, n) && refusals == old(refusals))
      ensures if ok then event == Locked(PageRun(addr, n)) else event.Nothing? || event.MutexFailed? || event.Refused?
      ensures !ok ==> refs == old(refs) && live == old(live) && (Exact(old(Abs())) ==> osLocked == old(osLocked))
      ensures locks == old(locks) + runs
      ensures ok ==> unlocks == old(unlocks) && Coalesced(runs, NewPages(old(refs), PageRun(addr, n)))
      ensures ok ==> forall p: nat ::
                && Count(refs, p) == Count(old(refs), p) + (if Touches(addr, n, p, pageSize) then 1 else 0)
                && (p in osLocked <==>
                      p in old(osLocked) || (Touches(addr, n, p, pageSize) && p != 0 && Count(old(refs), p) == 0))
      ensures ok && old(Inv(Abs())) ==> BytesLocked(osLocked, addr, n, pageSize)
    {
      if addr == 0 || n == 0 || addr > UINTPTR_MAX - (n - 1) {
        return false, Nothing, [];
      }
      PagesAscend(addr, n);
      hide FirstPage, LastPage, EndWraps, Coalesced, NewPages, SingleRef, DropRefs, AddRefs;
      var first := FirstPage(addr);
      var last := LastPage(addr, n);
      if EndWraps(last) { return false, Nothing, []; }
      var mutexFailed := TakeMutex();
      if mutexFailed { return false, MutexFailed, []; }
      ok, event, runs := LockPages(first, last);
      if ok {
        PageRunSpans(addr, n);
        LockingCoversTheBytes(old(Abs()), PageRun(addr, n), addr, n, pageSize);
      }
    }

    method MemUnlock(addr: nat, n: nat) returns (ghost event: Event, ghost runs: seq<Run>)
      modifies this
      ensures Abs() == Step(old(Abs()), event) && locks == old(locks) && refusals >= old(refusals)
      ensures if !InAddressSpace(addr, n) then event.Nothing?
              else event == if refusals > old(refusals) then MutexFailed else Unlocked(PageRun(addr, n))
      ensures unlocks == old(unlocks) + runs
      ensures !event.Unlocked? ==> runs == []
      ensures event.Unlocked? ==> Coalesced(runs, SingleRef(old(refs), PageRun(addr, n)))
      ensures event.Unlocked? ==>
                && OneLess(old(refs), refs, addr, n, pageSize)
                && (forall p: nat :: p in osLocked <==>
                      p in old(osLocked) && !(Touches(addr, n, p, pageSize) && p != 0 && Count(old(refs), p) == 1))
    {
      hide Coalesced, SingleRef, DropRefs, Without;
      if addr == 0 || n == 0 || addr > UINTPTR_MAX - (n - 1) { return Nothing, []; }
      PagesAscend(addr, n);
      hide FirstPage, LastPage, EndWraps;
      var first := FirstPage(addr);
      var last := LastPage(addr, n);
      var mutexFailed := TakeMutex();
      if mutexFailed { return MutexFailed, []; }
      runs := ReleasePageRefs(first, last);
      live := Without(live, PageRun(addr, n));
      event := Unlocked(PageRun(addr, n));
      PageRunSpans(addr, n);
      UnlockingCoversTheBytes(old(Abs()), PageRun(addr, n), addr, n, pageSize);
    }

    /** Drops the bookkeeping of a range whose addresses may already belong to someone else. */
    method MemForgetLock(addr: nat, n: nat) returns (ghost event: Event)
      modifies this
      ensures Abs() == Step(old(Abs()), event)
      ensures osLocked == old(osLocked) && locks == old(locks) && unlocks == old(unlocks)
      ensures if !InAddressSpace(addr, n) then event.Nothing?
              else event == if refusals > old(refusals) then MutexFailed else Forgotten(PageRun(addr, n))
      ensures event.Forgotten? ==> OneLess(old(refs), refs, addr, n, pageSize)
    {
      hide DropRefs, Without, AddRefs, SingleRef;
      if addr == 0 || n == 0 || addr > UINTPTR_MAX - (n - 1) { return Nothing; }
      PagesAscend(addr, n);
      hide FirstPage, LastPage, EndWraps;
      var first := FirstPage(addr);
      var last := LastPage(addr, n);
      var mutexFailed := TakeMutex();
      if mutexFailed { return MutexFailed; }
      ForgetPageRefs(first, last);
      live := Without(live, PageRun(addr, n));
      event := Forgotten(PageRun(addr, n));
      PageRunSpans(addr, n);
      UnlockingCoversTheBytes(old(Abs()), PageRun(addr, n), addr, n, pageSize);
    }
  }

  // ---- The scanning loops ---------------------------------------------------------------

  /** Up to where the single-reference pages have been handed to the system. */
  function Mark(rangeFirst: nat, page: nat): nat {
    if rangeFirst == 0 then page else rangeFirst
  }

  /** A scan has looked at first .. page - 1; `runs` are its closed runs and `done` their pages. */
  ghost predicate Scan(refs: Refs, first: nat, page: nat, rangeFirst: nat, runs: seq<Run>, done: set<nat>) {
    && (rangeFirst != 0 ==> first <= rangeFirst < page)
    && (rangeFirst != 0 ==> forall p: nat :: rangeFirst <= p < page ==> Count(refs, p) == 1)
    && done == SingleRef(refs, Run(first, Mark(rangeFirst, page)))
    && Coalesced(runs, done)
    && (runs != [] ==> runs[|runs| - 1].stop < Mark(rangeFirst, page))
  }

  lemma ScanStart(refs: Refs, first: nat) returns (runs: seq<Run>, done: set<nat>)
    ensures runs == [] && done == {} && Scan(refs, first, first, 0, runs, done)
    ensures DropRefs(refs, Run(first, first)) == refs
  {
    runs, done := [], {};
  }

  /** Where a scan stands: nothing open and all pages done, or a run open from `rangeFirst` on. */
  lemma ScanOpen(refs: Refs, first: nat, page: nat, rangeFirst: nat, runs: seq<Run>, done: set<nat>)
    requires Scan(refs, first, page, rangeFirst, runs, done)
    ensures rangeFirst != 0 ==> first <= rangeFirst < page
    ensures done == SingleRef(refs, Run(first, Mark(rangeFirst, page))) && Coalesced(runs, done)
  {}

  lemma SingleRefGrows(refs: Refs, first: nat, page: nat)
    requires first <= page
    ensures SingleRef(refs, Run(first, page + 1)) ==
            SingleRef(refs, Run(first, page)) + if page != 0 && Count(refs, page) == 1 then {page} else {}
  {}

  /** One more page: a run opens or goes on, nothing happens, or the open run closes. */
  lemma ScanOne(refs: Refs, first: nat, page: nat, rangeFirst: nat, runs: seq<Run>, done: set<nat>)
    requires first <= page && Scan(refs, first, page, rangeFirst, runs, done)
    ensures Count(refs, page) == 1 ==>
              Scan(refs, first, page + 1, if rangeFirst == 0 then page else rangeFirst, runs, done)
    ensures Count(refs, page) != 1 && rangeFirst == 0 ==> Scan(refs, first, page + 1, 0, runs, done)
    ensures Count(refs, page) != 1 && rangeFirst != 0 ==>
              Scan(refs, first, page + 1, 0, runs + [Run(rangeFirst, page)], done + Run(rangeFirst, page).Pages())
  {
    hide *;
    if Count(refs, page) != 1 && rangeFirst != 0 {
      RunCloses(refs, first, page, rangeFirst, runs, done);
    } else {
      RunStays(refs, first, page, rangeFirst, runs, done);
    }
  }

  lemma RunCloses(refs: Refs, first: nat, page: nat, rangeFirst: nat, runs: seq<Run>, done: set<nat>)
    requires first <= page && Scan(refs, first, page, rangeFirst, runs, done)
    requires Count(refs, page) != 1 && rangeFirst != 0
    ensures Scan(refs, first, page + 1, 0, runs + [Run(rangeFirst, page)], done + Run(rangeFirst, page).Pages())
  {
    hide SingleRef, Coalesced, Count;
    ScanClose(refs, first, page, rangeFirst, runs, done);
    SingleRefGrows(refs, first, page);
    var more := runs + [Run(rangeFirst, page)];
    assert more[|more| - 1].stop == page;
  }

  lemma RunStays(refs: Refs, first: nat, page: nat, rangeFirst: nat, runs: seq<Run>, done: set<nat>)
    requires first <= page && Scan(refs, first, page, rangeFirst, runs, done)
    requires Count(refs, page) == 1 || rangeFirst == 0
    ensures Scan(refs, first, page + 1,
                 if Count(refs, page) == 1 && rangeFirst == 0 then page else rangeFirst, runs, done)
  {
    hide Coalesced, SingleRef;
    SingleRefGrows(refs, first, page);
  }

  lemma ScanClose(refs: Refs, first: nat, stop: nat, rangeFirst: nat, runs: seq<Run>, done: set<nat>)
    requires first <= stop && Scan(refs, first, stop, rangeFirst, runs, done)
    ensures rangeFirst == 0 ==> done == SingleRef(refs, Run(first, stop)) && Coalesced(runs, done)
    ensures rangeFirst != 0 ==>
              && done + Run(rangeFirst, stop).Pages() == SingleRef(refs, Run(first, stop))
              && Coalesced(runs + [Run(rangeFirst, stop)], SingleRef(refs, Run(first, stop)))
  {
    if rangeFirst != 0 {
      var run := Run(rangeFirst, stop);
      assert done + run.Pages() == SingleRef(refs, Run(first, stop));
      CoalescedSnoc(runs, done, run);
    }
  }
}
