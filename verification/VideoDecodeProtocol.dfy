/** The video decode worker as a two-thread protocol: every lock-protected section, every atomic
    access and every stretch of worker-private code is one step; the render thread's steps may come
    between any two of the worker's. */
module VideoDecodeProtocol {

  /** A submitted job. `number` counts submissions, so it names the job; an end-of-stream marker
      (`eos`) carries no packet. */
  datatype Job = Job(number: nat, eos: bool, generation: nat)

  datatype Result =
    | Frame(generation: nat, job: nat, pts: real)
    | Eof(generation: nat, job: nat)

  /** `fed`: the packets accepted since the context was opened or flushed. `output`: how many frames
      it can still give before it wants input. */
  datatype Codec = NoCodec | Codec(fed: set<nat>, output: nat)

  /** Where the worker stands. `retry`: it drains because the codec refused the packet with EAGAIN. */
  datatype Pc =
    | Waiting
    | Popped(job: Job)
    | Sending(job: Job)
    | Draining(job: Job, retry: bool)
    | Received(job: Job, retry: bool, pts: real)
    | Passed(job: Job, retry: bool, pts: real)
    | Cleared(job: Job, retry: bool, pts: real)
    | Resending(job: Job)
    | EndingStream(job: Job)
    | Finishing(job: Job)
    | Exited
  {
    predicate Holds() { !Waiting? && !Exited? }

    /** Somewhere in `decode_available_frames`. */
    predicate InDrain() { Draining? || Received? || Passed? || Cleared? }
  }

  /** The packet the worker owns: its job's, until it has been sent or dropped. */
  function HeldPacket(pc: Pc): seq<nat> {
    if pc.Holds() && !pc.job.eos && (pc.Popped? || pc.Sending? || pc.Resending? || (pc.InDrain() && pc.retry))
    then [pc.job.number] else []
  }

  /** What the mutex guards, with the atomic seek target. */
  datatype Shared = Shared(
    queue: seq<Job>, done: seq<Result>, outstanding: nat, pendingFlush: bool, stop: bool, target: real)

  /** What only the worker thread touches. `freed`: the packets it has freed. */
  datatype Worker = Worker(pc: Pc, codec: Codec, hwActive: bool, flushed: bool, freed: seq<nat>)

  /** A finished job with everything it published. */
  datatype JobLog = JobLog(job: Job, results: seq<Result>)

  /** What has happened. `submitted`, `dropped`: packets handed in, and freed by the render thread;
      `partial`: what the held job has published so far. */
  datatype History = History(
    count: nat, lastGeneration: nat, orderly: bool, destroyed: bool, submitted: seq<nat>, dropped: seq<nat>,
    published: seq<Result>, taken: seq<Result>, log: seq<JobLog>, partial: seq<Result>)

  datatype State = State(sh: Shared, w: Worker, h: History)

  /** avcodec_send_packet: `Accepted(n)` leaves the codec n frames to give. */
  datatype SendResult = Accepted(output: nat) | Again | EndOfFile | Failed

  /** avcodec_receive_frame, with what becomes of the frame before the seek check: `Unusable` when the
      transfer from the device or the conversion fails. */
  datatype ReceiveResult = NoMore | HardError | Unusable | Usable(pts: real)

  datatype Event =
    // render thread
    | Submit(eos: bool, generation: nat)
    | BeginSeek(target: real)
    | Take
    | Stop
    | Destroy
    // worker thread
    | Pop
    | Begin
    | Send(ret: SendResult, reopened: bool, retryRet: SendResult)
    | Receive(got: ReceiveResult, reopenedAfter: bool)
    | CheckTarget
    | ClearTarget
    | Publish(copied: bool)
    | PublishEof
    | JobFinished

  const SIZE_T: nat := 0x1_0000_0000_0000_0000

  /** Subtraction on size_t. */
  function Minus(a: nat, b: nat): nat {
    if a >= b then a - b else (a - b) % SIZE_T
  }

  function Packets(jobs: seq<Job>): seq<nat> {
    if jobs == [] then []
    else Packets(jobs[..|jobs| - 1]) + if jobs[|jobs| - 1].eos then [] else [jobs[|jobs| - 1].number]
  }

  function Initial(codec: Codec, hw: bool): State {
    State(Shared([], [], 0, false, false, -1.0), Worker(Waiting, codec, hw, false, []),
          History(0, 0, true, false, [], [], [], [], [], []))
  }

  // ---- Worker-private code ----------------------------------------------------------------

  /** Drops the context and opens a software one, or fails to. */
  function Reopen(w: Worker, ok: bool): Worker {
    if ok then w.(hwActive := false, codec := Codec({}, 0), flushed := false)
    else w.(hwActive := false, codec := NoCodec)
  }

  /** The packet is freed and the job is over; a marker still owes its end of stream. */
  function Drop(w: Worker, job: Job): Worker {
    if job.eos then w.(pc := EndingStream(job)) else w.(pc := Finishing(job), freed := w.freed + [job.number])
  }

  function BeginJob(w: Worker, pendingFlush: bool): Worker
    requires w.pc.Popped?
  {
    if w.codec.NoCodec? then Drop(w, w.pc.job)
    else if pendingFlush then w.(codec := Codec({}, 0), flushed := false, pc := Sending(w.pc.job))
    else w.(pc := Sending(w.pc.job))
  }

  function Accept(w: Worker, job: Job, output: nat): Worker
    requires w.codec.Codec?
  {
    if job.eos then
      w.(flushed := true, codec := Codec(w.codec.fed, output), pc := Draining(job, false))
    else
      w.(flushed := false, codec := Codec(w.codec.fed + {job.number}, output), pc := Draining(job, false),
         freed := w.freed + [job.number])
  }

  /** The tail of send_packet, once `ret` is the answer to act on. */
  function Settle(w: Worker, job: Job, ret: SendResult, reopened: bool, retryRet: SendResult): Worker {
    var retry := ret.Failed? && w.hwActive;
    var w1 := if retry then Reopen(w, reopened) else w;
    var r := if retry && reopened then retryRet else ret;
    if r.Accepted? && w1.codec.Codec? then Accept(w1, job, r.output) else Drop(w1, job)
  }

  function SendPacket(w: Worker, ret: SendResult, reopened: bool, retryRet: SendResult): Worker
    requires w.pc.Sending? || w.pc.Resending?
  {
    var job := w.pc.job;
    if w.pc.Resending? then Settle(w, job, if w.codec.NoCodec? then Failed else ret, reopened, retryRet)
    else if job.eos && w.flushed then w.(pc := Draining(job, false))
    else if ret.Again? then w.(pc := Draining(job, true))
    else Settle(w, job, ret, reopened, retryRet)
  }

  function AfterDrain(job: Job, retry: bool): Pc {
    if retry then Resending(job) else if job.eos then EndingStream(job) else Finishing(job)
  }

  function ReceiveFrame(w: Worker, got: ReceiveResult, reopened: bool): Worker
    requires w.pc.Draining? && w.codec.Codec? && (got.Unusable? || got.Usable? ==> w.codec.output > 0)
  {
    var job, retry := w.pc.job, w.pc.retry;
    match got
    case NoMore => w.(pc := AfterDrain(job, retry))
    case HardError => (if w.hwActive then Reopen(w, reopened) else w).(pc := AfterDrain(job, retry))
    case Unusable => w.(codec := Codec(w.codec.fed, w.codec.output - 1))
    case Usable(pts) => w.(codec := Codec(w.codec.fed, w.codec.output - 1), pc := Received(job, retry, pts))
  }

  // ---- The steps --------------------------------------------------------------------------

  predicate Enabled(s: State, e: Event) {
    match e
    case Submit(_, _) => !s.sh.stop
    case BeginSeek(_) => !s.sh.stop
    case Take => !s.sh.stop && s.sh.done != []
    case Stop => !s.sh.stop
    case Destroy => s.sh.stop && s.w.pc.Exited? && !s.h.destroyed
    case Pop => s.w.pc.Waiting? && (s.sh.stop || s.sh.queue != [])
    case Begin => s.w.pc.Popped?
    case Send(_, _, _) => s.w.pc.Sending? || s.w.pc.Resending?
    case Receive(got, _) =>
      s.w.pc.Draining? && s.w.codec.Codec? && (got.Unusable? || got.Usable? ==> s.w.codec.output > 0)
    case CheckTarget => s.w.pc.Received?
    case ClearTarget => s.w.pc.Passed?
    case Publish(_) => s.w.pc.Cleared?
    case PublishEof => s.w.pc.EndingStream?
    case JobFinished => s.w.pc.Finishing?
  }

  function At(s: State, pc: Pc): State {
    s.(w := s.w.(pc := pc))
  }

  function PublishResult(s: State, r: Result): State {
    s.(sh := s.sh.(done := s.sh.done + [r]),
       h := s.h.(published := s.h.published + [r], partial := s.h.partial + [r]))
  }

  function SubmitJob(s: State, eos: bool, generation: nat): State {
    State(
      s.sh.(queue := s.sh.queue + [Job(s.h.count, eos, generation)], outstanding := s.sh.outstanding + 1),
      s.w,
      s.h.(count := s.h.count + 1, lastGeneration := generation,
           orderly := s.h.orderly && s.h.lastGeneration <= generation,
           submitted := s.h.submitted + if eos then [] else [s.h.count]))
  }

  function DropQueue(s: State): State {
    s.(sh := s.sh.(queue := []), h := s.h.(dropped := s.h.dropped + Packets(s.sh.queue)))
  }

  function SeekTo(s: State, target: real): State {
    var s1 := DropQueue(s);
    s1.(sh := s1.sh.(outstanding := Minus(s.sh.outstanding, |s.sh.queue|), target := target, pendingFlush := true))
  }

  function FinishJob(s: State): State
    requires s.w.pc.Finishing?
  {
    State(
      s.sh.(outstanding := if s.sh.outstanding > 0 then s.sh.outstanding - 1 else 0),
      s.w.(pc := Waiting),
      s.h.(log := s.h.log + [JobLog(s.w.pc.job, s.h.partial)], partial := []))
  }

  function Step(s: State, e: Event): State
    requires Enabled(s, e)
  {
    match e
    case Submit(eos, generation) => SubmitJob(s, eos, generation)
    case BeginSeek(target) => SeekTo(s, target)
    case Take =>
      s.(sh := s.sh.(done := s.sh.done[1..]), h := s.h.(taken := s.h.taken + [s.sh.done[0]]))
    case Stop => s.(sh := s.sh.(stop := true))
    case Destroy => var s1 := DropQueue(s); s1.(h := s1.h.(destroyed := true))
    case Pop =>
      if s.sh.stop then At(s, Exited)
      else At(s.(sh := s.sh.(queue := s.sh.queue[1..])), Popped(s.sh.queue[0]))
    case Begin =>
      s.(w := BeginJob(s.w, s.sh.pendingFlush),
         sh := s.sh.(pendingFlush := s.sh.pendingFlush && s.w.codec.NoCodec?))
    case Send(ret, reopened, retryRet) => s.(w := SendPacket(s.w, ret, reopened, retryRet))
    case Receive(got, reopenedAfter) => s.(w := ReceiveFrame(s.w, got, reopenedAfter))
    case CheckTarget =>
      var p := s.w.pc;
      At(s, if s.sh.target >= 0.0 && p.pts < s.sh.target then Draining(p.job, p.retry)
            else Passed(p.job, p.retry, p.pts))
    case ClearTarget =>
      At(s.(sh := s.sh.(target := -1.0)), Cleared(s.w.pc.job, s.w.pc.retry, s.w.pc.pts))
    case Publish(copied) =>
      var p := s.w.pc;
      At(if copied then PublishResult(s, Frame(p.job.generation, p.job.number, p.pts)) else s,
         Draining(p.job, p.retry))
    case PublishEof =>
      var job := s.w.pc.job;
      At(PublishResult(s, Eof(job.generation, job.number)), Finishing(job))
    case JobFinished => FinishJob(s)
  }

  /** `t` is what step `e` makes of `s`. */
  predicate Takes(s: State, e: Event, t: State) { Enabled(s, e) && t == Step(s, e) }

  lemma PrivateTakes(s: State)
    ensures s.w.pc.Popped? ==>
              Takes(s, Begin, s.(w := BeginJob(s.w, s.sh.pendingFlush),
                                 sh := s.sh.(pendingFlush := s.sh.pendingFlush && s.w.codec.NoCodec?)))
    ensures s.w.pc.Sending? || s.w.pc.Resending? ==> forall ret, reopened, retryRet ::
              Takes(s, Send(ret, reopened, retryRet), s.(w := SendPacket(s.w, ret, reopened, retryRet)))
    ensures s.w.pc.Draining? && s.w.codec.Codec? ==> forall got: ReceiveResult, reopened ::
              (got.Unusable? || got.Usable? ==> s.w.codec.output > 0) ==>
                Takes(s, Receive(got, reopened), s.(w := ReceiveFrame(s.w, got, reopened)))
  {
    hide BeginJob, SendPacket, ReceiveFrame;
  }

  /** `t` is reached from `s` by the steps `events`, in any interleaving of the two threads. */
  ghost predicate Reaches(s: State, events: seq<Event>, t: State)
    decreases |events|
  {
    if events == [] then s == t
    else Enabled(s, events[0]) && Reaches(Step(s, events[0]), events[1..], t)
  }

  lemma {:induction false} ReachesSnoc(s: State, events: seq<Event>, t: State, e: Event)
    requires Reaches(s, events, t) && Enabled(t, e)
    ensures Reaches(s, events + [e], Step(t, e))
    decreases |events|
  {
    hide Step, Enabled;
    if events == [] {
      assert ([] + [e])[1..] == [];
      assert Reaches(Step(t, e), [], Step(t, e));
    } else {
      ReachesSnoc(Step(s, events[0]), events[1..], t, e);
      assert (events + [e])[1..] == events[1..] + [e];
    }
  }

  // ---- The invariant --------------------------------------------------------------------

  /** Both subtractions on the counter are exact. */
  predicate CountInv(s: State) {
    !s.h.destroyed ==> s.sh.outstanding == |s.sh.queue| + if s.w.pc.Holds() then 1 else 0
  }

  /** Every submitted packet is dropped by the render thread, owned or already freed by the worker, or
      queued: exactly one of these, exactly once. */
  predicate Accounted(submitted: seq<nat>, count: nat, dropped: seq<nat>, workers: seq<nat>, queued: seq<nat>) {
    && multiset(submitted) == multiset(dropped) + multiset(workers) + multiset(queued)
    && (forall i, j :: 0 <= i < j < |submitted| ==> submitted[i] < submitted[j])
    && (forall i :: 0 <= i < |submitted| ==> submitted[i] < count)
  }

  function WorkersPackets(w: Worker): seq<nat> { w.freed + HeldPacket(w.pc) }

  predicate PacketInv(s: State) {
    Accounted(s.h.submitted, s.h.count, s.h.dropped, WorkersPackets(s.w), Packets(s.sh.queue))
  }

  predicate FramesOf(job: Job, results: seq<Result>) {
    forall r :: r in results ==> r.Frame? && r.generation == job.generation && r.job == job.number
  }

  /** A marker publishes its frames and then one EOF of its generation; a packet only frames. */
  predicate Complete(job: Job, results: seq<Result>) {
    if job.eos then
      && results != []
      && results[|results| - 1] == Eof(job.generation, job.number)
      && FramesOf(job, results[..|results| - 1])
    else FramesOf(job, results)
  }

  function Flatten(log: seq<JobLog>): seq<Result> {
    if log == [] then [] else Flatten(log[..|log| - 1]) + log[|log| - 1].results
  }

  predicate ResultInv(s: State) {
    && s.h.published == s.h.taken + s.sh.done
    && s.h.published == Flatten(s.h.log) + s.h.partial
    && (forall l :: l in s.h.log ==> Complete(l.job, l.results))
    && PartialInv(s.w.pc, s.h.partial)
  }

  predicate PartialInv(pc: Pc, partial: seq<Result>) {
    && (!pc.Holds() ==> partial == [])
    && (pc.Finishing? ==> Complete(pc.job, partial))
    && (pc.Holds() && !pc.Finishing? ==> FramesOf(pc.job, partial))
    && (pc.EndingStream? ==> pc.job.eos)
  }

  /** In the order submitted, every job not dropped: finished, held, queued. */
  function Pipeline(log: seq<JobLog>, pc: Pc, queue: seq<Job>): seq<Job> {
    seq(|log|, i requires 0 <= i < |log| => log[i].job) + (if pc.Holds() then [pc.job] else []) + queue
  }

  predicate OrderedJobs(jobs: seq<Job>, count: nat, lastGeneration: nat, orderly: bool) {
    && (forall i, j :: 0 <= i < j < |jobs| ==> jobs[i].number < jobs[j].number)
    && (forall j :: j in jobs ==> j.number < count)
    && (orderly ==> forall i, j :: 0 <= i < j < |jobs| ==> jobs[i].generation <= jobs[j].generation)
    && (orderly ==> forall j :: j in jobs ==> j.generation <= lastGeneration)
  }

  predicate OrderInv(s: State) {
    OrderedJobs(Pipeline(s.h.log, s.w.pc, s.sh.queue), s.h.count, s.h.lastGeneration, s.h.orderly)
  }

  /** A worker that sends or drains has a codec; one that lost it while draining has given hardware up. */
  predicate CodecInv(w: Worker) {
    && (w.pc.Sending? || w.pc.InDrain() ==> w.codec.Codec?)
    && (w.pc.Resending? && w.codec.NoCodec? ==> !w.hwActive)
  }

  predicate Inv(s: State) {
    CountInv(s) && PacketInv(s) && ResultInv(s) && OrderInv(s) && CodecInv(s.w)
  }

  // ---- One step keeps it ------------------------------------------------------------------

  predicate Private(e: Event) { e.Begin? || e.Send? || e.Receive? }

  /** Private code: the held job stays held and its packet is kept or freed; frames are only received
      by a worker whose job may still publish some. */
  predicate SameJob(w: Worker, v: Worker) {
    && w.pc.Holds() && v.pc.Holds() && v.pc.job == w.pc.job
    && v.freed + HeldPacket(v.pc) == w.freed + HeldPacket(w.pc)
    && (v.pc.EndingStream? ==> v.pc.job.eos)
    && (v.pc.Finishing? ==> !v.pc.job.eos)
    && (CodecInv(w) ==> CodecInv(v))
  }

  lemma SettleSteps(w: Worker, ret: SendResult, reopened: bool, retryRet: SendResult)
    requires w.pc.Sending? || w.pc.Resending?
    ensures SameJob(w, Settle(w, w.pc.job, ret, reopened, retryRet))
  {
    assert w.freed + [] == w.freed;
  }

  lemma BeginSteps(w: Worker, pendingFlush: bool)
    requires w.pc.Popped?
    ensures SameJob(w, BeginJob(w, pendingFlush))
  {
    assert w.freed + [] == w.freed;
  }

  lemma SendSteps(w: Worker, ret: SendResult, reopened: bool, retryRet: SendResult)
    requires w.pc.Sending? || w.pc.Resending?
    ensures SameJob(w, SendPacket(w, ret, reopened, retryRet))
  {
    hide Settle;
    assert w.freed + [] == w.freed;
    SettleSteps(w, ret, reopened, retryRet);
    SettleSteps(w, Failed, reopened, retryRet);
  }

  lemma ReceiveSteps(w: Worker, got: ReceiveResult, reopened: bool)
    requires w.pc.Draining? && w.codec.Codec? && (got.Unusable? || got.Usable? ==> w.codec.output > 0)
    ensures SameJob(w, ReceiveFrame(w, got, reopened))
  {
    assert w.freed + [] == w.freed;
  }

  lemma PrivateSteps(s: State, e: Event)
    requires Enabled(s, e) && Private(e)
    ensures SameJob(s.w, Step(s, e).w)
    ensures Step(s, e).h == s.h
    ensures Step(s, e).sh.(pendingFlush := s.sh.pendingFlush) == s.sh
  {
    hide BeginJob, SendPacket, ReceiveFrame, SameJob;
    match e
    case Send(ret, reopened, retryRet) => SendSteps(s.w, ret, reopened, retryRet);
    case Begin => BeginSteps(s.w, s.sh.pendingFlush);
    case Receive(got, reopened) => ReceiveSteps(s.w, got, reopened);
  }

  lemma PacketsSplit(a: seq<Job>, b: seq<Job>)
    ensures Packets(a + b) == Packets(a) + Packets(b)
  {
    if b == [] {
      assert a + b == a;
    } else {
      PacketsSplit(a, b[..|b| - 1]);
      assert (a + b)[..|a + b| - 1] == a + b[..|b| - 1];
    }
  }

  lemma PacketsOfOne(job: Job)
    ensures Packets([job]) == if job.eos then [] else [job.number]
  {
    assert [job][..0] == [];
  }

  lemma StepKeepsCount(s: State, e: Event)
    requires CountInv(s) && Enabled(s, e)
    ensures CountInv(Step(s, e))
    // neither size_t subtraction ever wraps
    ensures e.BeginSeek? && !s.h.destroyed ==> |s.sh.queue| <= s.sh.outstanding
    ensures e.JobFinished? && !s.h.destroyed ==> s.sh.outstanding > 0
  {
    hide BeginJob, SendPacket, ReceiveFrame;
    if Private(e) { PrivateSteps(s, e); }
  }

  lemma QuietSteps(s: State, e: Event)
    requires Enabled(s, e)
    requires !e.Submit? && !e.BeginSeek? && !e.Destroy? && (e.Pop? ==> s.sh.stop)
    requires PacketInv(s)
    ensures PacketInv(Step(s, e))
  {
    hide BeginJob, SendPacket, ReceiveFrame, Accounted;
    if Private(e) { PrivateSteps(s, e); }
    assert WorkersPackets(Step(s, e).w) == WorkersPackets(s.w);
  }

  lemma AccountMoves(submitted: seq<nat>, count: nat, dropped: seq<nat>, workers: seq<nat>, head: seq<nat>, tail: seq<nat>)
    requires Accounted(submitted, count, dropped, workers, head + tail)
    ensures Accounted(submitted, count, dropped, workers + head, tail)
    ensures Accounted(submitted, count, dropped + (head + tail), workers, [])
  {}

  lemma AccountAdds(submitted: seq<nat>, count: nat, dropped: seq<nat>, workers: seq<nat>, queued: seq<nat>, more: seq<nat>)
    requires Accounted(submitted, count, dropped, workers, queued)
    requires more == [] || more == [count]
    ensures Accounted(submitted + more, count + 1, dropped, workers, queued + more)
  {
    assert multiset(submitted + more) == multiset(submitted) + multiset(more);
    assert multiset(queued + more) == multiset(queued) + multiset(more);
  }

  lemma PopKeepsPackets(s: State)
    requires Enabled(s, Pop) && !s.sh.stop && PacketInv(s)
    ensures PacketInv(Step(s, Pop))
  {
    hide Accounted, Packets;
    var job := s.sh.queue[0];
    PacketsSplit([job], s.sh.queue[1..]);
    PacketsOfOne(job);
    assert [job] + s.sh.queue[1..] == s.sh.queue;
    assert WorkersPackets(Step(s, Pop).w) == WorkersPackets(s.w) + Packets([job]);
    AccountMoves(s.h.submitted, s.h.count, s.h.dropped, WorkersPackets(s.w), Packets([job]), Packets(s.sh.queue[1..]));
  }

  lemma DropKeepsPackets(s: State)
    requires PacketInv(s)
    ensures PacketInv(DropQueue(s))
  {
    assert Packets([]) == [];
    hide Accounted, Packets;
    AccountMoves(s.h.submitted, s.h.count, s.h.dropped, WorkersPackets(s.w), Packets(s.sh.queue), []);
    assert Packets(s.sh.queue) + [] == Packets(s.sh.queue);
  }

  lemma SubmitKeepsPackets(s: State, eos: bool, generation: nat)
    requires PacketInv(s)
    ensures PacketInv(SubmitJob(s, eos, generation))
  {
    var job := Job(s.h.count, eos, generation);
    hide Accounted, Packets;
    PacketsSplit(s.sh.queue, [job]);
    PacketsOfOne(job);
    AccountAdds(s.h.submitted, s.h.count, s.h.dropped, WorkersPackets(s.w), Packets(s.sh.queue), Packets([job]));
  }

  lemma StepKeepsPackets(s: State, e: Event)
    requires PacketInv(s) && Enabled(s, e)
    ensures PacketInv(Step(s, e))
  {
    hide Accounted, Packets, BeginJob, SendPacket, ReceiveFrame;
    match e
    case Submit(eos, generation) => SubmitKeepsPackets(s, eos, generation);
    case BeginSeek(_) => DropKeepsPackets(s);
    case Destroy => DropKeepsPackets(s);
    case Pop => if s.sh.stop { QuietSteps(s, e); } else { PopKeepsPackets(s); }
    case _ => QuietSteps(s, e);
  }

  lemma FlattenSnoc(log: seq<JobLog>, l: JobLog)
    ensures Flatten(log + [l]) == Flatten(log) + l.results
  {
    assert (log + [l])[..|log|] == log;
  }

  lemma PublishKeepsResults(s: State, r: Result, pc: Pc)
    requires ResultInv(s) && PartialInv(pc, s.h.partial + [r])
    ensures ResultInv(At(PublishResult(s, r), pc))
  {
    hide Flatten, PartialInv;
    assert s.h.taken + (s.sh.done + [r]) == (s.h.taken + s.sh.done) + [r];
    assert Flatten(s.h.log) + (s.h.partial + [r]) == (Flatten(s.h.log) + s.h.partial) + [r];
  }

  lemma PublishEofKeepsResults(s: State)
    requires ResultInv(s) && s.w.pc.EndingStream?
    ensures ResultInv(At(PublishResult(s, Eof(s.w.pc.job.generation, s.w.pc.job.number)), Finishing(s.w.pc.job)))
  {
    var r := Eof(s.w.pc.job.generation, s.w.pc.job.number);
    assert (s.h.partial + [r])[..|s.h.partial|] == s.h.partial;
    PublishKeepsResults(s, r, Finishing(s.w.pc.job));
  }

  lemma FinishKeepsResults(s: State)
    requires ResultInv(s) && s.w.pc.Finishing?
    ensures ResultInv(FinishJob(s))
  {
    FlattenSnoc(s.h.log, JobLog(s.w.pc.job, s.h.partial));
    hide Flatten;
  }

  lemma StepKeepsResults(s: State, e: Event)
    requires ResultInv(s) && Enabled(s, e)
    ensures ResultInv(Step(s, e))
  {
    hide BeginJob, SendPacket, ReceiveFrame, Flatten;
    match e
    case JobFinished => FinishKeepsResults(s);
    case Publish(copied) =>
      var p := s.w.pc;
      if copied {
        PublishKeepsResults(s, Frame(p.job.generation, p.job.number, p.pts), Draining(p.job, p.retry));
      }
    case PublishEof => PublishEofKeepsResults(s);
    case Take =>
      assert s.h.taken + s.sh.done == (s.h.taken + [s.sh.done[0]]) + s.sh.done[1..];
    case Begin => PrivateSteps(s, e);
    case Send(_, _, _) => PrivateSteps(s, e);
    case Receive(_, _) => PrivateSteps(s, e);
    case _ =>
  }

  function PipelineOf(s: State): seq<Job> { Pipeline(s.h.log, s.w.pc, s.sh.queue) }

  /** A step leaves the pipeline alone, adds the submitted job, or drops the queue. */
  lemma StepOnPipeline(s: State, e: Event)
    requires Enabled(s, e)
    ensures e.Submit? ==> PipelineOf(Step(s, e)) == PipelineOf(s) + [Job(s.h.count, e.eos, e.generation)]
    ensures e.BeginSeek? || e.Destroy? ==> PipelineOf(Step(s, e)) <= PipelineOf(s)
    ensures !e.Submit? && !e.BeginSeek? && !e.Destroy? ==> PipelineOf(Step(s, e)) == PipelineOf(s)
  {
    hide BeginJob, SendPacket, ReceiveFrame, CodecInv;
    match e
    case Pop => if !s.sh.stop { assert s.sh.queue == [s.sh.queue[0]] + s.sh.queue[1..]; }
    case Begin => PrivateSteps(s, e);
    case Send(_, _, _) => PrivateSteps(s, e);
    case Receive(_, _) => PrivateSteps(s, e);
    case _ =>
  }

  lemma StepOnCounters(s: State, e: Event)
    requires Enabled(s, e)
    ensures var t := Step(s, e);
            if e.Submit? then
              && t.h.count == s.h.count + 1 && t.h.lastGeneration == e.generation
              && t.h.orderly == (s.h.orderly && s.h.lastGeneration <= e.generation)
            else
              t.h.count == s.h.count && t.h.lastGeneration == s.h.lastGeneration && t.h.orderly == s.h.orderly
  {
    hide BeginJob, SendPacket, ReceiveFrame;
    if Private(e) { PrivateSteps(s, e); }
  }

  lemma StepKeepsOrder(s: State, e: Event)
    requires OrderInv(s) && Enabled(s, e)
    ensures OrderInv(Step(s, e))
  {
    StepOnPipeline(s, e);
    StepOnCounters(s, e);
    hide Step, Pipeline, PipelineOf;
    var t := Step(s, e);
    if e.Submit? {
      OneMoreOrdered(PipelineOf(s), s.h.count, s.h.lastGeneration, s.h.orderly, e.eos, e.generation);
    } else {
      FewerOrdered(PipelineOf(s), PipelineOf(t), s.h.count, s.h.lastGeneration, s.h.orderly);
    }
    OrderInvIs(s);
    OrderInvIs(t);
  }

  lemma OrderInvIs(s: State)
    ensures OrderInv(s) <==> OrderedJobs(PipelineOf(s), s.h.count, s.h.lastGeneration, s.h.orderly)
  {
    hide OrderedJobs;
  }

  lemma OneMoreOrdered(jobs: seq<Job>, count: nat, lastGeneration: nat, orderly: bool, eos: bool, generation: nat)
    requires OrderedJobs(jobs, count, lastGeneration, orderly)
    ensures OrderedJobs(jobs + [Job(count, eos, generation)], count + 1, generation, orderly && lastGeneration <= generation)
  {
    forall i | 0 <= i < |jobs| ensures jobs[i].number < count && (orderly ==> jobs[i].generation <= lastGeneration) {
      assert jobs[i] in jobs;
    }
  }

  lemma FewerOrdered(jobs: seq<Job>, fewer: seq<Job>, count: nat, lastGeneration: nat, orderly: bool)
    requires OrderedJobs(jobs, count, lastGeneration, orderly) && fewer <= jobs
    ensures OrderedJobs(fewer, count, lastGeneration, orderly)
  {}

  lemma StepKeepsCodec(s: State, e: Event)
    requires CodecInv(s.w) && Enabled(s, e)
    ensures CodecInv(Step(s, e).w)
  {
    hide BeginJob, SendPacket, ReceiveFrame;
    if Private(e) { PrivateSteps(s, e); }
  }

  lemma StepKeepsInv(s: State, e: Event)
    requires Inv(s) && Enabled(s, e)
    ensures Inv(Step(s, e))
  {
    StepKeepsCount(s, e);
    StepKeepsPackets(s, e);
    StepKeepsResults(s, e);
    StepKeepsOrder(s, e);
    StepKeepsCodec(s, e);
    hide Step, CountInv, PacketInv, ResultInv, OrderInv, CodecInv;
  }

  lemma {:induction false} EveryRunKeepsInv(s: State, events: seq<Event>, t: State)
    requires Inv(s) && Reaches(s, events, t)
    ensures Inv(t)
    decreases |events|
  {
    hide Inv, Step, Enabled;
    if events != [] {
      StepKeepsInv(s, events[0]);
      EveryRunKeepsInv(Step(s, events[0]), events[1..], t);
    }
  }

  // ---- Main results -----------------------------------------------------------------------

  /** While the object lives `outstanding()` is the jobs queued plus the one held, and every packet
      handed in is freed, held or queued exactly once; once destroyed, every packet has been freed once. */
  lemma PacketsAreFreedOnce(codec: Codec, hw: bool, events: seq<Event>, t: State)
    requires Reaches(Initial(codec, hw), events, t)
    ensures !t.h.destroyed ==> t.sh.outstanding == |t.sh.queue| + if t.w.pc.Holds() then 1 else 0
    ensures forall n :: n in t.h.submitted ==>
              multiset(t.h.dropped)[n] + multiset(t.w.freed)[n] + multiset(HeldPacket(t.w.pc))[n] +
              multiset(Packets(t.sh.queue))[n] == 1
    ensures t.h.destroyed ==> multiset(t.h.submitted) == multiset(t.h.dropped + t.w.freed)
  {
    hide ResultInv, OrderInv, CodecInv, Accounted, Step, Packets, HeldPacket;
    InitialInv(codec, hw);
    EveryRunKeepsInv(Initial(codec, hw), events, t);
    DestroyedIsEmpty(Initial(codec, hw), events, t);
    EachOnce(t.h.submitted, t.h.count, t.h.dropped, t.w.freed, HeldPacket(t.w.pc), Packets(t.sh.queue));
  }

  lemma EachOnce(submitted: seq<nat>, count: nat, dropped: seq<nat>, freed: seq<nat>, held: seq<nat>, queued: seq<nat>)
    requires Accounted(submitted, count, dropped, freed + held, queued)
    ensures forall n :: n in submitted ==>
              multiset(dropped)[n] + multiset(freed)[n] + multiset(held)[n] + multiset(queued)[n] == 1
    ensures held == [] && queued == [] ==> multiset(submitted) == multiset(dropped + freed)
  {
    assert multiset(freed + held) == multiset(freed) + multiset(held);
    forall n | n in submitted
      ensures multiset(submitted)[n] == 1
    {
      AscendingOnce(submitted, n);
    }
  }

  lemma InitialInv(codec: Codec, hw: bool)
    ensures Inv(Initial(codec, hw))
  {
    InitialOrder(codec, hw);
    InitialPackets(codec, hw);
    hide OrderInv, PacketInv;
  }

  lemma InitialOrder(codec: Codec, hw: bool)
    ensures OrderInv(Initial(codec, hw))
  {
    assert PipelineOf(Initial(codec, hw)) == [];
  }

  lemma InitialPackets(codec: Codec, hw: bool)
    ensures PacketInv(Initial(codec, hw))
  {}

  lemma {:induction false} AscendingOnce(s: seq<nat>, n: nat)
    requires forall i, j :: 0 <= i < j < |s| ==> s[i] < s[j]
    requires n in s
    ensures multiset(s)[n] == 1
  {
    var last := s[|s| - 1];
    assert s == s[..|s| - 1] + [last];
    if n in s[..|s| - 1] {
      AscendingOnce(s[..|s| - 1], n);
    }
  }

  /** A destroyed worker has exited, and nothing is queued for it. */
  lemma {:induction false} DestroyedIsEmpty(s: State, events: seq<Event>, t: State)
    requires Reaches(s, events, t)
    requires s.h.destroyed ==> s.sh.stop && s.w.pc.Exited? && Packets(s.sh.queue) == []
    ensures t.h.destroyed ==> t.sh.stop && HeldPacket(t.w.pc) == [] && Packets(t.sh.queue) == []
    decreases |events|
  {
    if events != [] {
      var u := Step(s, events[0]);
      assert u.h.destroyed ==> u.sh.stop && u.w.pc.Exited? && Packets(u.sh.queue) == [] by {
        hide BeginJob, SendPacket, ReceiveFrame;
        if Private(events[0]) { PrivateSteps(s, events[0]); }
      }
      hide Step;
      DestroyedIsEmpty(u, events[1..], t);
    }
  }

  /** What has been published is, job after job in submission order, each finished job's results:
      for a packet its frames, for an end-of-stream marker its frames and then exactly one EOF. */
  lemma EveryMarkerEndsItsStreamOnce(codec: Codec, hw: bool, events: seq<Event>, t: State)
    requires Reaches(Initial(codec, hw), events, t)
    ensures t.h.taken + t.sh.done == Flatten(t.h.log) + t.h.partial
    ensures forall i :: 0 <= i < |t.h.log| ==> Complete(t.h.log[i].job, t.h.log[i].results)
    ensures forall i, j :: 0 <= i < j < |t.h.log| ==> t.h.log[i].job.number < t.h.log[j].job.number
    ensures !t.w.pc.Holds() ==> t.h.partial == []
    ensures t.w.pc.Holds() && !t.w.pc.Finishing? ==> FramesOf(t.w.pc.job, t.h.partial)
  {
    hide *;
    InitialInv(codec, hw);
    EveryRunKeepsInv(Initial(codec, hw), events, t);
    FinishedInOrder(t);
    FinishedComplete(t);
  }

  lemma FinishedInOrder(t: State)
    requires Inv(t)
    ensures forall i, j :: 0 <= i < j < |t.h.log| ==> t.h.log[i].job.number < t.h.log[j].job.number
  {
    OrderInvIs(t);
    LogIsInPipeline(t);
    hide PipelineOf, PacketInv, ResultInv, CountInv, CodecInv;
  }

  lemma FinishedComplete(t: State)
    requires Inv(t)
    ensures t.h.taken + t.sh.done == Flatten(t.h.log) + t.h.partial
    ensures forall i :: 0 <= i < |t.h.log| ==> Complete(t.h.log[i].job, t.h.log[i].results)
    ensures !t.w.pc.Holds() ==> t.h.partial == []
    ensures t.w.pc.Holds() && !t.w.pc.Finishing? ==> FramesOf(t.w.pc.job, t.h.partial)
  {
    hide Flatten, Complete, FramesOf, OrderInv, PacketInv, CountInv, CodecInv;
    forall i | 0 <= i < |t.h.log| ensures Complete(t.h.log[i].job, t.h.log[i].results) {
      assert t.h.log[i] in t.h.log;
    }
  }

  lemma LogIsInPipeline(t: State)
    ensures var jobs := PipelineOf(t);
            && |t.h.log| <= |jobs|
            && (forall i :: 0 <= i < |t.h.log| ==> jobs[i] == t.h.log[i].job)
            && (t.w.pc.Holds() ==> |t.h.log| < |jobs| && jobs[|t.h.log|] == t.w.pc.job)
  {}

  predicate Ascending(results: seq<Result>) {
    forall i, j :: 0 <= i < j < |results| ==> results[i].generation <= results[j].generation
  }

  predicate AtMost(results: seq<Result>, generation: nat) {
    forall r :: r in results ==> r.generation <= generation
  }

  lemma AscendingAppend(a: seq<Result>, b: seq<Result>, generation: nat)
    requires Ascending(a) && AtMost(a, generation)
    requires forall r :: r in b ==> r.generation == generation
    ensures Ascending(a + b) && AtMost(a + b, generation)
  {
    forall i | 0 <= i < |a| ensures a[i].generation <= generation { assert a[i] in a; }
    forall i | 0 <= i < |b| ensures b[i].generation == generation { assert b[i] in b; }
  }

  lemma OneGeneration(job: Job, results: seq<Result>)
    requires Complete(job, results) || FramesOf(job, results)
    ensures forall r :: r in results ==> r.generation == job.generation
  {
    if job.eos && Complete(job, results) {
      assert results == results[..|results| - 1] + [results[|results| - 1]];
    }
  }

  lemma {:induction false} FlattenAscends(log: seq<JobLog>, generation: nat)
    requires forall i :: 0 <= i < |log| ==> Complete(log[i].job, log[i].results)
    requires forall i, j :: 0 <= i < j < |log| ==> log[i].job.generation <= log[j].job.generation
    requires forall i :: 0 <= i < |log| ==> log[i].job.generation <= generation
    ensures Ascending(Flatten(log)) && AtMost(Flatten(log), generation)
  {
    hide Complete;
    if log != [] {
      var last := log[|log| - 1];
      FlattenAscends(log[..|log| - 1], last.job.generation);
      OneGeneration(last.job, last.results);
      AscendingAppend(Flatten(log[..|log| - 1]), last.results, last.job.generation);
    }
  }

  /** Submitted in nondecreasing generations, results come out in nondecreasing generations. */
  lemma GenerationsNeverGoBack(codec: Codec, hw: bool, events: seq<Event>, t: State)
    requires Reaches(Initial(codec, hw), events, t) && t.h.orderly
    ensures Ascending(t.h.taken + t.sh.done)
  {
    hide CountInv, PacketInv, CodecInv, Step, Complete, Flatten, OrderedJobs, Pipeline;
    InitialInv(codec, hw);
    EveryRunKeepsInv(Initial(codec, hw), events, t);
    OrderedLog(t);
    if t.w.pc.Holds() {
      FlattenAscends(t.h.log, t.w.pc.job.generation);
      OneGeneration(t.w.pc.job, t.h.partial);
      AscendingAppend(Flatten(t.h.log), t.h.partial, t.w.pc.job.generation);
    } else {
      FlattenAscends(t.h.log, t.h.lastGeneration);
      assert Flatten(t.h.log) + [] == Flatten(t.h.log);
    }
  }

  lemma OrderedLog(t: State)
    requires OrderInv(t) && t.h.orderly
    ensures forall i, j :: 0 <= i < j < |t.h.log| ==> t.h.log[i].job.generation <= t.h.log[j].job.generation
    ensures forall i :: 0 <= i < |t.h.log| ==>
              t.h.log[i].job.generation <= if t.w.pc.Holds() then t.w.pc.job.generation else t.h.lastGeneration
  {
    LogIsInPipeline(t);
    var jobs := PipelineOf(t);
    hide Pipeline;
    forall i | 0 <= i < |t.h.log| ensures t.h.log[i].job.generation <= t.h.lastGeneration {
      assert jobs[i] in jobs;
    }
  }

  /** Once stopped, the worker starts no further job: at most the one it holds is still finished. */
  lemma {:induction false} StopAbandonsTheQueue(s: State, events: seq<Event>, t: State)
    requires s.sh.stop && Reaches(s, events, t)
    ensures t.sh.stop && |t.h.log| + (if t.w.pc.Holds() then 1 else 0) <= |s.h.log| + if s.w.pc.Holds() then 1 else 0
    ensures !t.h.destroyed ==> t.sh.queue == s.sh.queue
    decreases |events|
  {
    if events != [] {
      var u := Step(s, events[0]);
      assert u.sh.stop && (!u.h.destroyed ==> u.sh.queue == s.sh.queue && !s.h.destroyed) &&
             |u.h.log| + (if u.w.pc.Holds() then 1 else 0) <= |s.h.log| + if s.w.pc.Holds() then 1 else 0 by {
        hide BeginJob, SendPacket, ReceiveFrame;
        if Private(events[0]) { PrivateSteps(s, events[0]); }
      }
      hide Step;
      StopAbandonsTheQueue(u, events[1..], t);
    }
  }
}
