/** The growable, page-locked, wiped-before-release byte buffer. */
module SecureBytes {
  import L = PageLock
  import opened Common

  const SIZE_MAX: nat := 0xFFFF_FFFF_FFFF_FFFF
  const MIN_GROW: nat := 16

  /** No object is larger than PTRDIFF_MAX bytes: the allocator refuses beyond it. */
  const ALLOC_MAX: nat := SIZE_MAX / 2

  /** The capacity `reserve(n)` asks the allocator for. */
  function GrownCapacity(capacity: nat, n: nat): nat {
    if capacity == 0 then Max(n, MIN_GROW)
    else Max(n, if capacity <= SIZE_MAX / 2 then capacity * 2 else capacity)
  }

  // ---- What a run of calls does, on values ------------------------------------------------

  /** `copied` counts the bytes regrowth has moved, `largest` the largest size asked for, both
      since the buffer was last empty-handed. */
  datatype Buffer = Buffer(bytes: seq<byte>, capacity: nat, copied: nat, largest: nat)

  const EMPTY := Buffer([], 0, 0, 0)

  /** `granted`: whether the allocator would serve the call, should it need a new block. */
  datatype Op =
    | Reserve(n: nat, granted: bool)
    | Append(src: seq<byte>, granted: bool)
    | PushBack(b: byte, granted: bool)
    | Resize(n: nat, granted: bool)
    | Clear

  function Reserved(b: Buffer, n: nat, granted: bool): Buffer {
    if n <= b.capacity then b
    else if !granted || GrownCapacity(b.capacity, n) > ALLOC_MAX then b
    else Buffer(b.bytes, GrownCapacity(b.capacity, n), b.copied + |b.bytes|, Max(b.largest, n))
  }

  function Appended(b: Buffer, src: seq<byte>, granted: bool): Buffer {
    if src == [] || |b.bytes| > SIZE_MAX - |src| then b
    else
      var r := Reserved(b, |b.bytes| + |src|, granted);
      if r.capacity < |b.bytes| + |src| then b else r.(bytes := b.bytes + src)
  }

  function Resized(n: nat, granted: bool): Buffer {
    if n == 0 || !granted || n > ALLOC_MAX then EMPTY else Buffer(seq(n, _ => 0), n, 0, n)
  }

  function Step(b: Buffer, op: Op): Buffer {
    match op
    case Reserve(n, granted) => Reserved(b, n, granted)
    case Append(src, granted) => Appended(b, src, granted)
    case PushBack(x, granted) => Appended(b, [x], granted)
    case Resize(n, granted) => Resized(n, granted)
    case Clear => EMPTY
  }

  function Run(b: Buffer, ops: seq<Op>): Buffer {
    if ops == [] then b else Step(Run(b, ops[..|ops| - 1]), ops[|ops| - 1])
  }

  /** What the calls mean when memory never runs out: plain sequence concatenation. */
  function Meaning(ops: seq<Op>): seq<byte> {
    if ops == [] then []
    else
      var before := Meaning(ops[..|ops| - 1]);
      match ops[|ops| - 1]
      case Reserve(_, _) => before
      case Append(src, _) => before + src
      case PushBack(x, _) => before + [x]
      case Resize(n, _) => seq(n, _ => 0)
      case Clear => []
  }

  predicate BufferInv(b: Buffer) {
    && |b.bytes| <= b.capacity <= ALLOC_MAX
    && b.capacity <= Max(MIN_GROW, 2 * b.largest)
    && b.copied <= b.capacity
  }

  lemma StepKeepsBuffer(b: Buffer, op: Op)
    requires BufferInv(b)
    ensures BufferInv(Step(b, op))
    // a call either takes its full effect on the contents or leaves them exactly as they were
    ensures op.Reserve? ==> Step(b, op).bytes == b.bytes
    ensures op.Append? ==> Step(b, op).bytes == b.bytes + op.src || Step(b, op) == b
    ensures op.PushBack? ==> Step(b, op).bytes == b.bytes + [op.b] || Step(b, op) == b
  {}

  /** After every run of calls: capacity at most twice the largest request (or 16), and all the bytes
      regrowth ever moved fit in the present capacity. */
  lemma {:induction false} EveryRunIsAmortised(ops: seq<Op>)
    ensures BufferInv(Run(EMPTY, ops))
  {
    if ops != [] {
      EveryRunIsAmortised(ops[..|ops| - 1]);
      StepKeepsBuffer(Run(EMPTY, ops[..|ops| - 1]), ops[|ops| - 1]);
    }
  }

  /** Did this call get what it asked for? */
  predicate Served(b: Buffer, op: Op) {
    match op
    case Reserve(n, _) => n <= Step(b, op).capacity
    case Append(src, _) => |Step(b, op).bytes| == |b.bytes| + |src|
    case PushBack(_, _) => |Step(b, op).bytes| == |b.bytes| + 1
    case Resize(n, _) => |Step(b, op).bytes| == n
    case Clear => true
  }

  predicate AllServed(b: Buffer, ops: seq<Op>) {
    ops == [] || (AllServed(b, ops[..|ops| - 1]) && Served(Run(b, ops[..|ops| - 1]), ops[|ops| - 1]))
  }

  /** A run in which every call reported success holds exactly the concatenation it was given. */
  lemma {:induction false} ServedRunsConcatenate(ops: seq<Op>)
    requires AllServed(EMPTY, ops)
    ensures Run(EMPTY, ops).bytes == Meaning(ops)
  {
    if ops != [] {
      ServedRunsConcatenate(ops[..|ops| - 1]);
      EveryRunIsAmortised(ops[..|ops| - 1]);
      StepKeepsBuffer(Run(EMPTY, ops[..|ops| - 1]), ops[|ops| - 1]);
    }
  }

  /** Without the allocator's bound the copying is no longer paid for by the capacity. */
  lemma HugeBlocksAreNotAmortised()
    ensures var cap := SIZE_MAX / 2 + 1;
            cap + cap > GrownCapacity(cap, cap + 1)
  {}

  // ---- Sharing the registry ------------------------------------------------------------------

  /** Between two moments a buffer gave up `mine` and took `now`; whatever else was registered still is. */
  predicate OthersKeep(before: seq<L.Run>, mine: multiset<L.Run>, after: seq<L.Run>, now: multiset<L.Run>) {
    multiset(before) - mine + now <= multiset(after)
  }

  lemma KeepTwice(a: seq<L.Run>, m: multiset<L.Run>, b: seq<L.Run>, n: multiset<L.Run>, c: seq<L.Run>, o: multiset<L.Run>)
    requires OthersKeep(a, m, b, n) && OthersKeep(b, n, c, o)
    ensures OthersKeep(a, m, c, o)
  {}

  /** Releasing a range takes exactly one registration of it away. */
  lemma ReleaseTakesOneRegistration(live: seq<L.Run>, mine: L.Run)
    requires mine in live
    ensures multiset(L.Without(live, mine)) == multiset(live) - multiset{mine}
  {
    var i := L.IndexOf(live, mine);
    assert live == live[..i] + [live[i]] + live[i + 1..];
  }

  lemma ReleaseKeepsOthers(s: L.State, e: L.Event, mine: L.Run)
    requires (e.MutexFailed? || e == L.Unlocked(mine)) && mine in s.live
    ensures OthersKeep(s.live, multiset{mine}, L.Step(s, e).live, multiset{})
  {
    ReleaseTakesOneRegistration(s.live, mine);
    hide L.Without;
  }

  lemma LockKeepsOthers(s: L.State, e: L.Event, run: L.Run)
    requires e.Nothing? || e.MutexFailed? || e.Refused? || e == L.Locked(run)
    ensures OthersKeep(s.live, multiset{}, L.Step(s, e).live, if e.Locked? then multiset{run} else multiset{})
  {}

  /** A regrowth releases one range and locks another: both events, or either, may have failed. */
  lemma MoveKeepsOthers(s: L.State, released: L.Event, relocked: L.Event, mine: L.Run, run: L.Run)
    requires (released.MutexFailed? || released == L.Unlocked(mine)) && mine in s.live
    requires relocked.Nothing? || relocked.MutexFailed? || relocked.Refused? || relocked == L.Locked(run)
    ensures OthersKeep(s.live, multiset{mine}, L.Step(L.Step(s, released), relocked).live,
                       if relocked.Locked? then multiset{run} else multiset{})
  {
    ReleaseKeepsOthers(s, released, mine);
    var t := L.Step(s, released);
    LockKeepsOthers(t, relocked, run);
    hide *;
    KeepTwice(s.live, multiset{mine}, t.live, multiset{}, L.Step(t, relocked).live,
              if relocked.Locked? then multiset{run} else multiset{});
  }

  function Total(holds: seq<multiset<L.Run>>): multiset<L.Run> {
    if holds == [] then multiset{} else Total(holds[..|holds| - 1]) + holds[|holds| - 1]
  }

  lemma {:induction false} TotalWithout(holds: seq<multiset<L.Run>>, i: nat, now: multiset<L.Run>)
    requires i < |holds|
    ensures holds[i] <= Total(holds)
    ensures Total(holds[i := now]) == Total(holds) - holds[i] + now
    decreases |holds|
  {
    var n := |holds| - 1;
    if i < n {
      TotalWithout(holds[..n], i, now);
      assert holds[i := now][..n] == holds[..n][i := now];
    } else {
      assert holds[i := now][..n] == holds[..n];
    }
  }

  /** The registrations of all the buffers are apart in the registry, and stay so whatever one of them
      gives up and takes: every other buffer is still registered. */
  lemma OthersStayRegistered(holds: seq<multiset<L.Run>>, i: nat, before: seq<L.Run>, after: seq<L.Run>,
                             now: multiset<L.Run>)
    requires i < |holds| && Total(holds) <= multiset(before) && OthersKeep(before, holds[i], after, now)
    ensures Total(holds[i := now]) <= multiset(after)
    ensures forall j, run :: 0 <= j < |holds| && j != i && run in holds[j] ==> run in after
  {
    TotalWithout(holds, i, now);
    forall j, run | 0 <= j < |holds| && j != i && run in holds[j]
      ensures run in after
    {
      TotalWithout(holds[i := now], j, multiset{});
      hide Total, OthersKeep;
      assert holds[i := now][j] == holds[j];
      assert multiset(after)[run] > 0;
    }
  }

  // ---- The buffer -------------------------------------------------------------------------

  lemma ReservedFits(b: Buffer, n: nat)
    requires BufferInv(b)
    ensures BufferInv(Reserved(b, n, true)) && BufferInv(Reserved(b, n, false)) && Reserved(b, n, false) == b
    ensures Reserved(b, n, true).bytes == b.bytes
    ensures Reserved(b, n, true) == b || n <= Reserved(b, n, true).capacity
    ensures 0 < GrownCapacity(b.capacity, n) && n <= GrownCapacity(b.capacity, n)
    ensures b.capacity < n && GrownCapacity(b.capacity, n) <= ALLOC_MAX ==>
              Reserved(b, n, true) == Buffer(b.bytes, GrownCapacity(b.capacity, n), b.copied + |b.bytes|, Max(b.largest, n))
  {}

  lemma ResizedTo(b: Buffer, n: nat)
    ensures Step(b, Op.Resize(n, false)) == EMPTY && Step(b, Op.Resize(n, true)) == Resized(n, true)
    ensures 0 < n <= ALLOC_MAX ==> Resized(n, true) == Buffer(seq(n, _ => 0), n, 0, n)
  {}

  lemma RoomAlready(b: Buffer, n: nat)
    ensures n <= b.capacity ==> Reserved(b, n, true) == b
  {}

  lemma AppendedFits(b: Buffer, src: seq<byte>, granted: bool)
    requires BufferInv(b)
    ensures src == [] || |b.bytes| > SIZE_MAX - |src| ==> Appended(b, src, granted) == b
    ensures src != [] && |b.bytes| <= SIZE_MAX - |src| ==>
              var r := Reserved(b, |b.bytes| + |src|, granted);
              if r.capacity < |b.bytes| + |src| then Appended(b, src, granted) == b == r
              else r.bytes == b.bytes && Appended(b, src, granted) == r.(bytes := b.bytes + src)
    ensures BufferInv(Appended(b, src, granted)) && |b.bytes| < SIZE_MAX
  {
    hide GrownCapacity;
    ReservedFits(b, |b.bytes| + |src|);
  }

  /** `memcpy` between two blocks. */
  method Copy(src: array<byte>, dst: array<byte>, at: nat, n: nat)
    requires src != dst && n <= src.Length && at + n <= dst.Length
    modifies dst
    ensures dst[..at] == old(dst[..at]) && dst[at..at + n] == src[..n]
  {
    for i := 0 to n
      invariant dst[..at] == old(dst[..at])
      invariant forall j :: 0 <= j < i ==> dst[at + j] == src[j]
    {
      dst[at + i] := src[i];
    }
  }

  class Bytes {
    const registry: L.PageLockRegistry
    var data: array?<byte>
    var addr: nat                  // the address of the block
    var size: nat
    var capacity: nat
    var locked: bool
    ghost var copied: nat
    ghost var largest: nat
    ghost var refusals: nat        // how often the allocator said no

    ghost predicate Valid() reads this, registry {
      && (data == null ==> size == 0 && capacity == 0 && !locked && copied == 0 && largest == 0)
      && (data != null ==> data.Length == capacity && 0 < capacity && size <= capacity)
      && (locked ==> registry.InAddressSpace(addr, capacity) && Range() in registry.live)
    }

    ghost function Range(): L.Run reads `addr, `capacity {
      if capacity == 0 then L.Run(0, 0) else registry.PageRun(addr, capacity)
    }

    /** The registration it holds, if it holds one. */
    ghost function Held(): multiset<L.Run> reads `addr, `capacity, `locked {
      if locked then multiset{Range()} else multiset{}
    }

    ghost function Abs(): Buffer
      requires Valid()
      reads this, registry, data
    {
      Buffer(if data == null then [] else data[..size], capacity, copied, largest)
    }

    /** As long as a buffer is locked, whatever other buffers lock and release, every byte of its block lies on a
        page the system holds. */
    lemma LockedBytesStayResident()
      requires Valid() && L.Inv(registry.Abs()) && locked
      ensures L.BytesLocked(registry.osLocked, addr, capacity, registry.pageSize)
    {
      registry.PageRunSpans(addr, capacity);
      hide L.BytesLocked, L.Spans, L.Inv;
      L.LiveBlocksAreLocked(registry.Abs(), Range(), addr, capacity, registry.pageSize);
    }

    constructor (registry: L.PageLockRegistry)
      ensures Valid() && Abs() == EMPTY && data == null && this.registry == registry
    {
      this.registry := registry;
      data, addr, size, capacity, locked, copied, largest := null, 0, 0, 0, false, 0, 0;
      refusals := 0;
    }

    /** The allocator: refuses at will, and always beyond ALLOC_MAX. The block is zeroed. */
    method Allocate(n: nat) returns (granted: bool, block: array<byte>, at: nat)
      modifies `refusals
      ensures fresh(block) && refusals == old(refusals) + if granted then 0 else 1
      ensures granted ==> n <= ALLOC_MAX && block.Length == n && forall i :: 0 <= i < n ==> block[i] == 0
    {
      granted, at := *, *;
      if n > ALLOC_MAX { granted := false; }
      if !granted { refusals := refusals + 1; }
      block := new byte[if granted then n else 0](_ => 0);
    }

    /** Gives the lock back. Only a block that has been wiped may become swappable. */
    method UnlockWiped() returns (ghost event: L.Event)
      requires Valid() && locked && L.Inv(registry.Abs())
      requires data != null && forall i :: 0 <= i < data.Length ==> data[i] == 0
      modifies registry
      ensures L.Inv(registry.Abs()) && registry.Abs() == L.Step(old(registry.Abs()), event)
      ensures event == if registry.refusals > old(registry.refusals) then L.MutexFailed else L.Unlocked(Range())
      ensures registry.refusals >= old(registry.refusals)
      ensures OthersKeep(old(registry.live), multiset{Range()}, registry.live, multiset{})
    {
      ghost var runs;
      event, runs := registry.MemUnlock(addr, capacity);
      L.StepKeepsInv(old(registry.Abs()), event);
      ReleaseKeepsOthers(old(registry.Abs()), event, Range());
    }

    /** Wipes the full capacity, then gives the lock back if, and only if, it was held. */
    method FreeStorage() returns (ghost event: L.Event)
      requires Valid() && L.Inv(registry.Abs())
      modifies this, data, registry
      ensures Valid() && Abs() == EMPTY && data == null && refusals == old(refusals)
      ensures old(data) != null ==> forall i :: 0 <= i < old(data).Length ==> old(data)[i] == 0
      ensures L.Inv(registry.Abs()) && registry.Abs() == L.Step(old(registry.Abs()), event)
      ensures if !old(locked) then event.Nothing?
              else event == if registry.refusals > old(registry.refusals) then L.MutexFailed else L.Unlocked(old(Range()))
      ensures registry.refusals >= old(registry.refusals)
      ensures OthersKeep(old(registry.live), old(Held()), registry.live, multiset{}) && !locked
    {
      event := L.Nothing;
      if data == null { return; }
      for i := 0 to capacity
        modifies data
        invariant forall j :: 0 <= j < i ==> data[j] == 0
      {
        data[i] := 0;
      }
      if locked { event := UnlockWiped(); }
      data, size, capacity, locked, copied, largest := null, 0, 0, false, 0, 0;
    }

    /** Locks the block just installed; failing to is not fatal. */
    method LockBlock() returns (ghost event: L.Event)
      requires data != null && data.Length == capacity && 0 < capacity && size <= capacity
      requires L.Inv(registry.Abs())
      modifies this`locked, registry
      ensures Valid() && L.Inv(registry.Abs())
      ensures registry.Abs() == L.Step(old(registry.Abs()), event)
      ensures locked <==> event == L.Locked(Range())
      ensures locked <==> registry.Lockable(addr, capacity) && registry.refusals == old(registry.refusals)
      ensures registry.refusals >= old(registry.refusals)
      ensures !locked ==> event.Nothing? || event.MutexFailed? || event.Refused?
      ensures OthersKeep(old(registry.live), multiset{}, registry.live, Held())
      ensures locked ==> L.BytesLocked(registry.osLocked, addr, capacity, registry.pageSize)
    {
      hide L.Touches, L.BytesLocked;
      ghost var runs;
      locked, event, runs := registry.MemLock(addr, capacity);
      L.StepKeepsInv(old(registry.Abs()), event);
      LockKeepsOthers(old(registry.Abs()), event, Range());
    }

    /** A buffer without a block gets one, and tries to lock it. */
    method Install(block: array<byte>, at: nat, filled: nat, ghost moved: nat, ghost asked: nat)
      returns (ghost event: L.Event)
      requires Valid() && data == null && L.Inv(registry.Abs())
      requires 0 < block.Length && filled <= block.Length
      modifies this, registry
      ensures Valid() && L.Inv(registry.Abs()) && data == block && size == filled && refusals == old(refusals)
      ensures Abs() == Buffer(block[..filled], block.Length, moved, asked)
      ensures registry.Abs() == L.Step(old(registry.Abs()), event) && !event.Unlocked?
      ensures registry.Lockable(addr, capacity) && !locked ==> registry.refusals > old(registry.refusals)
      ensures registry.refusals >= old(registry.refusals)
      ensures OthersKeep(old(registry.live), multiset{}, registry.live, Held())
    {
      hide L.Inv, L.Step, OthersKeep;
      data, addr, size, capacity, copied, largest := block, at, filled, block.Length, moved, asked;
      event := LockBlock();
    }

    method Resize(n: nat) returns (ok: bool, ghost op: Op)
      requires Valid() && L.Inv(registry.Abs())
      modifies this, data, registry
      ensures Valid() && L.Inv(registry.Abs())
      ensures op.Resize? && op.n == n && Abs() == Step(old(Abs()), op)
      ensures ok <==> size == n
      ensures ok <==> refusals == old(refusals)
      ensures ok && n > 0 && registry.Lockable(addr, capacity) ==> locked || registry.refusals > old(registry.refusals)
      ensures OthersKeep(old(registry.live), old(Held()), registry.live, Held())
      ensures data != null ==> fresh(data)
      ensures old(data) != null ==> forall i :: 0 <= i < old(data).Length ==> old(data)[i] == 0
    {
      ResizedTo(Abs(), n);
      hide *;
      op := Op.Resize(n, false);
      ghost var _ := FreeStorage();
      Emptied();
      ghost var kept := registry.live;
      ok := n == 0;
      if n > 0 {
        var granted, block, at := Allocate(n);
        ok := granted;
        if granted {
          ghost var _ := Install(block, at, n, 0, n);
          assert block[..n] == seq(n, _ => 0);
          KeepTwice(old(registry.live), old(Held()), kept, multiset{}, registry.live, Held());
          op := Op.Resize(n, true);
        }
      }
    }

    method SaveInto(block: array<byte>)
      requires Valid() && block != data && size <= block.Length
      modifies block
      ensures block[..size] == Abs().bytes
    {
      if size > 0 { Copy(data, block, 0, size); }
    }

    /** Moves the contents into `block`, wiping and releasing the old one. */
    method Regrow(block: array<byte>, at: nat, n: nat) returns (ghost released: L.Event, ghost relocked: L.Event)
      requires Valid() && L.Inv(registry.Abs())
      requires block != data && size <= block.Length && 0 < block.Length
      modifies this, data, registry, block
      ensures Valid() && L.Inv(registry.Abs())
      ensures data == block && capacity == block.Length
      ensures Abs() == Buffer(old(Abs().bytes), block.Length, old(copied + size), Max(old(largest), n))
      ensures registry.Abs() == L.Step(L.Step(old(registry.Abs()), released), relocked)
      ensures if old(locked) then released.MutexFailed? || released == L.Unlocked(old(Range())) else released.Nothing?
      ensures released.MutexFailed? || (registry.Lockable(addr, capacity) && !locked) ==>
                registry.refusals > old(registry.refusals)
      ensures refusals == old(refusals)
      ensures old(data) != null ==> forall i :: 0 <= i < old(data).Length ==> old(data)[i] == 0
    {
      hide *;
      AbsIs();
      SaveInto(block);
      ghost var moved := block[..size];
      var filled := size;
      ghost var work, asked := copied + size, Max(largest, n);
      released := FreeStorage();
      assert block[..filled] == moved;
      relocked := Install(block, at, filled, work, asked);
      AbsIs();
    }

    method NextCapacity(n: nat) returns (newCap: nat)
      ensures newCap == GrownCapacity(capacity, n)
    {
      newCap := n;
      if capacity == 0 {
        newCap := Max(n, MIN_GROW);
      } else {
        var grown := if capacity <= SIZE_MAX / 2 then capacity * 2 else capacity;
        newCap := Max(n, grown);
      }
    }

    /** `released` and `relocked` are what the move told the registry, in that order. */
    method Reserve(n: nat) returns (ok: bool, ghost granted: bool, ghost released: L.Event, ghost relocked: L.Event)
      requires Valid() && L.Inv(registry.Abs()) && BufferInv(Abs())
      modifies this, data, registry
      ensures Valid() && L.Inv(registry.Abs())
      ensures Abs() == Reserved(old(Abs()), n, granted) && BufferInv(Abs())
      ensures ok <==> n <= capacity
      ensures ok <==> refusals == old(refusals)
      ensures registry.Abs() == L.Step(L.Step(old(registry.Abs()), released), relocked)
      ensures data != old(data) && old(locked) ==> released.MutexFailed? || released == L.Unlocked(old(Range()))
      ensures released.MutexFailed? ==> registry.refusals > old(registry.refusals)
      ensures !old(locked) ==> released.Nothing?
      ensures data == old(data) ==> unchanged(`size, `capacity, `locked, `addr) && released.Nothing? && relocked.Nothing?
      ensures data == old(data) && data != null ==> data[..] == old(data[..])
      ensures data != old(data) ==> data != null && fresh(data)
      // the block left behind is wiped over its full capacity
      ensures data != old(data) && old(data) != null ==>
                forall i :: 0 <= i < old(data).Length ==> old(data)[i] == 0
    {
      assert L.Step(registry.Abs(), L.Nothing) == registry.Abs();
      ReservedFits(Abs(), n);
      AbsIs();
      hide *;
      released, relocked, granted := L.Nothing, L.Nothing, false;
      ok := n <= capacity;
      if !ok {
        var newCap := NextCapacity(n);
        var block, at;
        ok, block, at := Allocate(newCap);
        granted := ok;
        if ok {
          released, relocked := Regrow(block, at, n);
          AbsIs();
        }
      }
    }

    /** What the appending calls need of Reserve. */
    method MakeRoom(n: nat) returns (ok: bool, ghost granted: bool)
      requires Valid() && L.Inv(registry.Abs()) && BufferInv(Abs())
      modifies this, data, registry
      ensures Valid() && L.Inv(registry.Abs())
      ensures Abs() == Reserved(old(Abs()), n, granted)
      ensures ok <==> n <= capacity
      ensures ok <==> refusals == old(refusals)
      ensures data == old(data) || fresh(data)
    {
      hide *;
      ghost var released, relocked;
      ok, granted, released, relocked := Reserve(n);
    }

    lemma Emptied()
      requires Valid() && data == null
      ensures size == 0 && Held() == multiset{}
    {}

    lemma AbsIs()
      requires Valid()
      ensures |Abs().bytes| == size <= capacity && Abs().capacity == capacity && (capacity > 0 ==> data != null)
    {}

    /** The bytes go behind the contents. */
    method WriteTail(src: array<byte>)
      requires Valid() && data != null && src != data && size + src.Length <= capacity
      modifies data, `size
      ensures Valid() && Abs() == old(Abs()).(bytes := old(Abs().bytes) + old(src[..]))
    {
      hide L.PageLockRegistry.InAddressSpace;
      Copy(src, data, size, src.Length);
      assert data[..size + src.Length] == data[..size] + data[size..size + src.Length];
      assert src[..src.Length] == src[..];
      size := size + src.Length;
    }

    /** One byte behind the contents. */
    method WriteByte(b: byte)
      requires Valid() && data != null && size < capacity
      modifies data, `size
      ensures Valid() && Abs() == old(Abs()).(bytes := old(Abs().bytes) + [b])
    {
      hide L.PageLockRegistry.InAddressSpace;
      data[size] := b;
      size := size + 1;
      assert data[..size] == old(data[..size]) + [b];
    }

    /** Append, once there is something to append and its length does not overflow. */
    method AppendSome(src: array<byte>) returns (ok: bool, ghost op: Op)
      requires Valid() && L.Inv(registry.Abs()) && BufferInv(Abs())
      requires src != data && 0 < src.Length && size <= SIZE_MAX - src.Length
      modifies this, data, registry
      ensures Valid() && L.Inv(registry.Abs())
      ensures op.Append? && op.src == old(src[..]) && Abs() == Appended(old(Abs()), op.src, op.granted)
      ensures Abs() == if ok then Abs().(bytes := old(Abs().bytes) + op.src) else old(Abs())
      ensures ok <==> refusals == old(refusals)
    {
      hide *;
      AbsIs();
      ghost var before, added := Abs(), src[..];
      var reserved;
      ghost var granted;
      reserved, granted := MakeRoom(size + src.Length);
      AbsIs();
      op := Op.Append(added, granted);
      AppendedFits(before, added, granted);
      if reserved { WriteTail(src); }
      ok := reserved;
    }

    method Append(src: array<byte>) returns (ok: bool, ghost op: Op)
      requires Valid() && L.Inv(registry.Abs()) && BufferInv(Abs())
      requires src != data      // not a view of this buffer
      modifies this, data, registry
      ensures Valid() && L.Inv(registry.Abs()) && BufferInv(Abs())
      ensures op.Append? && op.src == old(src[..])
      ensures Abs() == Appended(old(Abs()), op.src, op.granted)
      ensures ok ==> Abs().bytes == old(Abs().bytes) + op.src
      ensures !ok ==> Abs() == old(Abs())
      ensures ok <==> old(size) <= SIZE_MAX - src.Length && refusals == old(refusals)
    {
      hide *;
      AbsIs();
      op := Op.Append(src[..], false);
      AppendedFits(Abs(), src[..], false);
      ghost var before := Abs();
      assert before.bytes + [] == before.bytes;
      ok := src.Length == 0;
      if src.Length > 0 && size <= SIZE_MAX - src.Length {
        ok, op := AppendSome(src);
        AppendedFits(before, op.src, op.granted);
      }
    }

    /** Reserves one byte more, only when there is no room. */
    method RoomForOne() returns (ok: bool, ghost granted: bool)
      requires Valid() && L.Inv(registry.Abs()) && BufferInv(Abs())
      modifies this, data, registry
      ensures Valid() && L.Inv(registry.Abs()) && size == old(size)
      ensures Abs() == Reserved(old(Abs()), size + 1, granted)
      ensures ok <==> size < capacity
      ensures ok <==> refusals == old(refusals)
      ensures data == old(data) || fresh(data)
    {
      AbsIs();
      RoomAlready(Abs(), size + 1);
      ReservedFits(Abs(), size + 1);
      hide *;
      ok, granted := true, true;
      if size == capacity { ok, granted := MakeRoom(size + 1); }
      AbsIs();
    }

    method PushBack(b: byte) returns (ok: bool, ghost op: Op)
      requires Valid() && L.Inv(registry.Abs()) && BufferInv(Abs())
      modifies this, data, registry
      ensures Valid() && L.Inv(registry.Abs()) && BufferInv(Abs())
      ensures op.PushBack? && op.b == b && Abs() == Appended(old(Abs()), [b], op.granted)
      ensures ok ==> Abs().bytes == old(Abs().bytes) + [b]
      ensures !ok ==> Abs() == old(Abs())
      ensures ok <==> refusals == old(refusals)
    {
      hide *;
      AbsIs();
      ghost var before := Abs();
      ghost var granted;
      ok, granted := RoomForOne();
      op := Op.PushBack(b, granted);
      AbsIs();
      AppendedFits(before, [b], granted);
      if ok { WriteByte(b); }
    }

    method Clear()
      requires Valid() && L.Inv(registry.Abs())
      modifies this, data, registry
      ensures Valid() && L.Inv(registry.Abs()) && Abs() == Step(old(Abs()), Op.Clear)
      ensures data == null && OthersKeep(old(registry.live), old(Held()), registry.live, multiset{})
      ensures old(data) != null ==> forall i :: 0 <= i < old(data).Length ==> old(data)[i] == 0
    {
      ghost var _ := FreeStorage();
    }
  }
}
