/** What a seek isolates from what came before it, and exactly when it does. */
module VideoDecodeSeek {
  import opened VideoDecodeProtocol

  /** A frame of a job submitted from number `mark` on. */
  predicate NewFrame(r: Result, mark: nat) { r.Frame? && mark <= r.job }

  predicate NoNewFrame(results: seq<Result>, mark: nat) {
    forall i :: 0 <= i < |results| ==> !NewFrame(results[i], mark)
  }

  /** The first new frame among `results`, if there is one, is at or past `target`. */
  predicate FirstNewFrameFrom(results: seq<Result>, mark: nat, target: real) {
    forall i :: 0 <= i < |results| && NewFrame(results[i], mark) && NoNewFrame(results[..i], mark) ==>
      results[i].pts >= target
  }

  predicate CodecIsNew(codec: Codec, mark: nat) {
    codec.Codec? ==> forall n :: n in codec.fed ==> mark <= n
  }

  /** No further seek, and no frame copy that ran out of memory. */
  predicate Undisturbing(events: seq<Event>) {
    forall e: Event :: e in events ==> !e.BeginSeek? && e != Publish(false)
  }

  /** What a seek promises of any later state: new jobs meet only new packets in the codec, and the first
      new frame published since is at or past the target. */
  predicate Isolated(t: State, mark: nat, base: nat, target: real) {
    && (t.w.pc.Sending? || t.w.pc.Resending? || t.w.pc.InDrain() ==>
          (mark <= t.w.pc.job.number ==> CodecIsNew(t.w.codec, mark)))
    && base <= |t.h.published| && FirstNewFrameFrom(t.h.published[base..], mark, target)
  }

  /** A seek in `s` keeps that promise whatever happens until the next one. */
  ghost predicate SeekIsolates(s: State, target: real)
    requires Enabled(s, BeginSeek(target))
  {
    forall events, t ::
      Reaches(Step(s, BeginSeek(target)), events, t) && Undisturbing(events) ==>
        Isolated(t, s.h.count, |s.h.published|, target)
  }

  /** The codec has nothing more to give the job, and the job nothing more to give the codec. */
  predicate Dry(w: Worker, retry: bool) { !retry && w.codec.Codec? && w.codec.output == 0 }

  /** The job held, if any, can touch neither the flush nor the target of a seek to `target`: it was popped
      for want of a codec, it is past its last frame, or the frame it holds will be skipped. */
  predicate OutOfTheWay(w: Worker, target: real) {
    match w.pc
    case Waiting => true
    case Exited => true
    case Popped(_) => w.codec.NoCodec?
    case Sending(job) => job.eos && w.flushed && Dry(w, false)
    case Resending(_) => w.codec.NoCodec?
    case Draining(_, retry) => Dry(w, retry)
    case Received(_, retry, pts) => pts < target && Dry(w, retry)
    case Passed(_, _, _) => false
    case Cleared(_, retry, _) => Dry(w, retry)
    case EndingStream(_) => true
    case Finishing(_) => true
  }

  // ---- Out of the way, it isolates ----------------------------------------------------------

  /** Only packets submitted from number `mark` on are queued, held, or in the codec; before the
      deferred flush the codec may still hold older ones, but then the worker has not touched it yet. */
  predicate OnlyNewPackets(s: State, mark: nat) {
    && mark <= s.h.count
    && (forall i :: 0 <= i < |s.sh.queue| ==> mark <= s.sh.queue[i].number)
    && (s.w.pc.Holds() ==> mark <= s.w.pc.job.number)
    && (|| CodecIsNew(s.w.codec, mark)
        || (s.sh.pendingFlush && (s.w.pc.Waiting? || s.w.pc.Exited? || s.w.pc.Popped?)))
  }

  /** `since`: what has been published since the seek. */
  predicate TargetGuards(s: State, since: seq<Result>, mark: nat, target: real) {
    && FirstNewFrameFrom(since, mark, target)
    && (NoNewFrame(since, mark) ==>
          && (s.w.pc.Passed? || s.w.pc.Cleared? ==> s.w.pc.pts >= target)
          && (s.w.pc.Cleared? || s.sh.target == target))
  }

  /** The job from before the seek is still held, out of the way of its flush and its target. */
  predicate OldJobHeld(s: State, mark: nat, target: real) {
    && s.w.pc.Holds() && s.w.pc.job.number < mark <= s.h.count
    && (forall i :: 0 <= i < |s.sh.queue| ==> mark <= s.sh.queue[i].number)
    && OutOfTheWay(s.w, target) && s.sh.pendingFlush && s.sh.target == target
  }

  predicate Isolating(s: State, since: seq<Result>, mark: nat, target: real) {
    || (OldJobHeld(s, mark, target) && NoNewFrame(since, mark))
    || (OnlyNewPackets(s, mark) && TargetGuards(s, since, mark, target))
  }

  lemma StepKeepsNewPackets(s: State, e: Event, mark: nat)
    requires OnlyNewPackets(s, mark) && CodecInv(s.w) && Enabled(s, e) && !e.BeginSeek?
    ensures OnlyNewPackets(Step(s, e), mark)
  {
    if Private(e) {
      PrivateSteps(s, e);
      PrivateKeepsNewPackets(s, e, mark);
    } else {
      hide CodecIsNew, BeginJob, SendPacket, ReceiveFrame;
    }
  }

  lemma PrivateKeepsNewPackets(s: State, e: Event, mark: nat)
    requires OnlyNewPackets(s, mark) && CodecInv(s.w) && Enabled(s, e) && Private(e)
    ensures CodecIsNew(Step(s, e).w.codec, mark) ||
            (Step(s, e).sh.pendingFlush && Step(s, e).w.pc.Popped?)
  {}

  lemma SnocResult(since: seq<Result>, r: Result, mark: nat, target: real)
    requires FirstNewFrameFrom(since, mark, target)
    requires NewFrame(r, mark) && NoNewFrame(since, mark) ==> r.pts >= target
    ensures FirstNewFrameFrom(since + [r], mark, target)
    ensures NoNewFrame(since + [r], mark) <==> NoNewFrame(since, mark) && !NewFrame(r, mark)
  {
    hide NewFrame;
    forall i | 0 <= i <= |since| ensures (since + [r])[..i] == since[..i] {}
    assert since[..|since|] == since;
    assert (since + [r])[|since|] == r;
    assert forall i :: 0 <= i < |since| ==> (since + [r])[i] == since[i];
  }

  /** What a step adds to what is published. */
  function Published(s: State, e: Event): seq<Result>
    requires Enabled(s, e)
  {
    match e
    case Publish(copied) => if copied then [Frame(s.w.pc.job.generation, s.w.pc.job.number, s.w.pc.pts)] else []
    case PublishEof => [Eof(s.w.pc.job.generation, s.w.pc.job.number)]
    case _ => []
  }

  lemma PublishedGrows(s: State, e: Event, base: nat)
    requires Enabled(s, e) && base <= |s.h.published|
    ensures base <= |Step(s, e).h.published|
    ensures Step(s, e).h.published[base..] == s.h.published[base..] + Published(s, e)
  {
    assert Step(s, e).h.published == s.h.published + Published(s, e) by {
      hide BeginJob, SendPacket, ReceiveFrame;
      if Private(e) { PrivateSteps(s, e); }
      assert s.h.published + [] == s.h.published;
    }
    hide *;
  }

  lemma QuietPcs(s: State, e: Event)
    requires Enabled(s, e) && Private(e)
    ensures !Step(s, e).w.pc.Passed? && !Step(s, e).w.pc.Cleared?
  {}

  lemma StepKeepsTarget(s: State, e: Event, since: seq<Result>, mark: nat, target: real)
    requires Enabled(s, e) && !e.BeginSeek? && e != Publish(false)
    requires target >= 0.0 && (s.w.pc.Holds() ==> mark <= s.w.pc.job.number)
    requires TargetGuards(s, since, mark, target)
    ensures TargetGuards(Step(s, e), since + Published(s, e), mark, target)
  {
    hide FirstNewFrameFrom, NoNewFrame;
    assert since + [] == since;
    match e
    case Publish(_) => SnocResult(since, Published(s, e)[0], mark, target);
    case PublishEof => SnocResult(since, Published(s, e)[0], mark, target);
    case Begin => PrivateSteps(s, e); QuietPcs(s, e);
    case Send(_, _, _) => PrivateSteps(s, e); QuietPcs(s, e);
    case Receive(_, _) => PrivateSteps(s, e); QuietPcs(s, e);
    case _ =>
  }

  /** A step with the old job held: it stays out of the way, or is over. */
  lemma OldJobStep(s: State, e: Event, mark: nat, target: real)
    requires OldJobHeld(s, mark, target) && CodecInv(s.w) && target >= 0.0
    requires Enabled(s, e) && !e.BeginSeek? && e != Publish(false)
    ensures OldJobHeld(Step(s, e), mark, target) || e.JobFinished?
    ensures e.JobFinished? ==> OnlyNewPackets(Step(s, e), mark) && Step(s, e).sh.target == target && Step(s, e).w.pc.Waiting?
    ensures forall i :: 0 <= i < |Published(s, e)| ==> !NewFrame(Published(s, e)[i], mark)
  {}

  lemma NothingNewYet(s: State, since: seq<Result>, mark: nat, target: real)
    requires NoNewFrame(since, mark) && s.sh.target == target && s.w.pc.Waiting?
    ensures TargetGuards(s, since, mark, target)
  {}

  lemma StepKeepsIsolating(s: State, e: Event, since: seq<Result>, mark: nat, target: real)
    requires Isolating(s, since, mark, target) && CodecInv(s.w) && target >= 0.0
    requires Enabled(s, e) && !e.BeginSeek? && e != Publish(false)
    ensures Isolating(Step(s, e), since + Published(s, e), mark, target)
  {
    if OldJobHeld(s, mark, target) && NoNewFrame(since, mark) {
      OldJobStep(s, e, mark, target);
      var now := since + Published(s, e);
      assert NoNewFrame(now, mark);
      hide NoNewFrame, OldJobHeld, OnlyNewPackets, TargetGuards, Step, Enabled;
      if e.JobFinished? { NothingNewYet(Step(s, e), now, mark, target); }
    } else {
      StepKeepsNewPackets(s, e, mark);
      StepKeepsTarget(s, e, since, mark, target);
      hide NoNewFrame, TargetGuards, Step, Enabled, CodecIsNew;
    }
  }

  lemma {:induction false} RunKeepsIsolating(s: State, events: seq<Event>, t: State, mark: nat, base: nat, target: real)
    requires Reaches(s, events, t) && Undisturbing(events) && target >= 0.0 && CodecInv(s.w)
    requires base <= |s.h.published| && Isolating(s, s.h.published[base..], mark, target)
    ensures base <= |t.h.published| && Isolating(t, t.h.published[base..], mark, target)
    decreases |events|
  {
    hide Isolating, CodecInv, Step, Enabled;
    if events != [] {
      var e := events[0];
      StepKeepsIsolating(s, e, s.h.published[base..], mark, target);
      PublishedGrows(s, e, base);
      StepKeepsCodec(s, e);
      RunKeepsIsolating(Step(s, e), events[1..], t, mark, base, target);
    }
  }

  lemma IsolatingIsolates(t: State, mark: nat, base: nat, target: real)
    requires base <= |t.h.published| && Isolating(t, t.h.published[base..], mark, target)
    ensures Isolated(t, mark, base, target)
  {}

  /** What is held when a seek takes the lock was submitted before it. */
  lemma HeldIsOld(s: State)
    requires OrderInv(s)
    ensures s.w.pc.Holds() ==> s.w.pc.job.number < s.h.count
  {
    LogIsInPipeline(s);
    var jobs := PipelineOf(s);
    if s.w.pc.Holds() { assert jobs[|s.h.log|] in jobs; }
  }

  lemma SeekStarts(s: State, target: real)
    requires Enabled(s, BeginSeek(target)) && OutOfTheWay(s.w, target)
    requires s.w.pc.Holds() ==> s.w.pc.job.number < s.h.count
    ensures var u := Step(s, BeginSeek(target));
            u.h.published == s.h.published && u.w == s.w &&
            Isolating(u, u.h.published[|s.h.published|..], s.h.count, target)
  {}

  lemma OutOfTheWayIsolates(s: State, target: real)
    requires Enabled(s, BeginSeek(target)) && OutOfTheWay(s.w, target) && CodecInv(s.w) && target >= 0.0
    requires s.w.pc.Holds() ==> s.w.pc.job.number < s.h.count
    ensures SeekIsolates(s, target)
  {
    SeekStarts(s, target);
    hide Isolating, Isolated, Step, Enabled, OutOfTheWay;
    var u := Step(s, BeginSeek(target));
    forall events, t | Reaches(u, events, t) && Undisturbing(events)
      ensures Isolated(t, s.h.count, |s.h.published|, target)
    {
      RunKeepsIsolating(u, events, t, s.h.count, |s.h.published|, target);
      IsolatingIsolates(t, s.h.count, |s.h.published|, target);
    }
  }

  // ---- In the way, it does not --------------------------------------------------------------

  /** Some undisturbed run from `s` publishes, as its first new frame, one before the target. */
  ghost predicate Breaks(s: State, mark: nat, base: nat, target: real) {
    exists events, t ::
      && Reaches(s, events, t) && Undisturbing(events)
      && base <= |t.h.published| && !FirstNewFrameFrom(t.h.published[base..], mark, target)
  }

  lemma BreaksNow(s: State, mark: nat, base: nat, target: real)
    requires base <= |s.h.published| && !FirstNewFrameFrom(s.h.published[base..], mark, target)
    ensures Breaks(s, mark, base, target)
  {
    assert Reaches(s, [], s) && Undisturbing([]);
  }

  lemma BreaksBefore(s: State, e: Event, mark: nat, base: nat, target: real)
    requires Enabled(s, e) && !e.BeginSeek? && e != Publish(false) && Breaks(Step(s, e), mark, base, target)
    ensures Breaks(s, mark, base, target)
  {
    hide Step, Enabled, FirstNewFrameFrom;
    var events, t :|
      && Reaches(Step(s, e), events, t) && Undisturbing(events)
      && base <= |t.h.published| && !FirstNewFrameFrom(t.h.published[base..], mark, target);
    assert ([e] + events)[1..] == events;
    assert Reaches(s, [e] + events, t);
  }

  /** Nothing is queued, the codec is open, and no new frame has come out yet. */
  predicate Poised(s: State, mark: nat, base: nat) {
    && s.sh.queue == [] && !s.sh.stop && s.w.codec.Codec? && mark <= s.h.count
    && base <= |s.h.published| && NoNewFrame(s.h.published[base..], mark)
  }

  /** So it is after a step that publishes nothing new. */
  lemma PoisedStill(s: State, e: Event, mark: nat, base: nat)
    requires Poised(s, mark, base) && Enabled(s, e)
    requires Step(s, e).sh.queue == [] && !Step(s, e).sh.stop && Step(s, e).w.codec.Codec? && mark <= Step(s, e).h.count
    requires forall i :: 0 <= i < |Published(s, e)| ==> !NewFrame(Published(s, e)[i], mark)
    ensures Poised(Step(s, e), mark, base)
  {
    PublishedGrows(s, e, base);
    hide NewFrame, Step, Enabled, Published;
  }

  // A new job without a target: its first frame may lie anywhere.

  lemma EarlyCleared(s: State, mark: nat, base: nat, target: real)
    requires Poised(s, mark, base) && s.w.pc.Cleared? && mark <= s.w.pc.job.number && s.w.pc.pts < target
    ensures Breaks(s, mark, base, target)
  {
    var e := Publish(true);
    var since := s.h.published[base..];
    PublishedGrows(s, e, base);
    assert (since + Published(s, e))[..|since|] == since;
    assert (since + Published(s, e))[|since|] == Published(s, e)[0];
    BreaksNow(Step(s, e), mark, base, target);
    BreaksBefore(s, e, mark, base, target);
  }

  lemma EarlyReceived(s: State, mark: nat, base: nat, target: real)
    requires Poised(s, mark, base) && s.w.pc.Received? && mark <= s.w.pc.job.number && s.w.pc.pts < target
    requires s.sh.target < 0.0
    ensures Breaks(s, mark, base, target)
  {
    var u := Step(s, CheckTarget);
    PoisedStill(s, CheckTarget, mark, base);
    PoisedStill(u, ClearTarget, mark, base);
    EarlyCleared(Step(u, ClearTarget), mark, base, target);
    BreaksBefore(u, ClearTarget, mark, base, target);
    BreaksBefore(s, CheckTarget, mark, base, target);
  }

  lemma EarlyPacket(s: State, mark: nat, base: nat, target: real)
    requires Poised(s, mark, base) && s.w.pc.Sending? && mark <= s.w.pc.job.number && !s.w.pc.job.eos
    requires s.sh.target < 0.0
    ensures Breaks(s, mark, base, target)
  {
    var e1, e2 := Send(Accepted(1), false, Failed), Receive(Usable(target - 1.0), false);
    var u := Step(s, e1);
    PoisedStill(s, e1, mark, base);
    PoisedStill(u, e2, mark, base);
    EarlyReceived(Step(u, e2), mark, base, target);
    BreaksBefore(u, e2, mark, base, target);
    BreaksBefore(s, e1, mark, base, target);
  }

  lemma EarlyPopped(s: State, mark: nat, base: nat, target: real)
    requires Poised(s, mark, base) && s.w.pc.Popped? && mark <= s.w.pc.job.number && !s.w.pc.job.eos
    requires s.sh.target < 0.0
    ensures Breaks(s, mark, base, target)
  {
    PoisedStill(s, Begin, mark, base);
    EarlyPacket(Step(s, Begin), mark, base, target);
    BreaksBefore(s, Begin, mark, base, target);
  }

  /** An idle worker whose target has been cleared behind the seek's back. */
  lemma EarlyIdle(s: State, mark: nat, base: nat, target: real)
    requires Poised(s, mark, base) && s.w.pc.Waiting? && s.sh.target < 0.0
    ensures Breaks(s, mark, base, target)
  {
    var e := Submit(false, 0);
    var u := Step(s, e);
    var v := Step(u, Pop);
    assert u.sh.queue == [Job(s.h.count, false, 0)];
    assert v.h.published == s.h.published && v.sh.queue == [];
    EarlyPopped(v, mark, base, target);
    BreaksBefore(u, Pop, mark, base, target);
    BreaksBefore(s, e, mark, base, target);
  }

  // The old job, its frame having cleared the target: it ends, and a new one follows.

  lemma ClearedFinishing(s: State, mark: nat, base: nat, target: real)
    requires Poised(s, mark, base) && s.w.pc.Finishing? && s.sh.target < 0.0
    ensures Breaks(s, mark, base, target)
  {
    PoisedStill(s, JobFinished, mark, base);
    EarlyIdle(Step(s, JobFinished), mark, base, target);
    BreaksBefore(s, JobFinished, mark, base, target);
  }

  lemma ClearedEnding(s: State, mark: nat, base: nat, target: real)
    requires Poised(s, mark, base) && s.w.pc.EndingStream? && s.sh.target < 0.0
    ensures Breaks(s, mark, base, target)
  {
    PoisedStill(s, PublishEof, mark, base);
    ClearedFinishing(Step(s, PublishEof), mark, base, target);
    BreaksBefore(s, PublishEof, mark, base, target);
  }

  lemma ClearedLastDrain(s: State, mark: nat, base: nat, target: real)
    requires Poised(s, mark, base) && s.w.pc.Draining? && !s.w.pc.retry && s.sh.target < 0.0
    ensures Breaks(s, mark, base, target)
  {
    var e := Receive(NoMore, false);
    PoisedStill(s, e, mark, base);
    if s.w.pc.job.eos { ClearedEnding(Step(s, e), mark, base, target); }
    else { ClearedFinishing(Step(s, e), mark, base, target); }
    BreaksBefore(s, e, mark, base, target);
  }

  lemma ClearedDrain(s: State, mark: nat, base: nat, target: real)
    requires Poised(s, mark, base) && s.w.pc.Draining? && s.sh.target < 0.0
    ensures Breaks(s, mark, base, target)
  {
    if s.w.pc.retry {
      var e1, e2 := Receive(NoMore, false), Send(Accepted(0), false, Failed);
      var u := Step(s, e1);
      PoisedStill(s, e1, mark, base);
      PoisedStill(u, e2, mark, base);
      ClearedLastDrain(Step(u, e2), mark, base, target);
      BreaksBefore(u, e2, mark, base, target);
      BreaksBefore(s, e1, mark, base, target);
    } else {
      ClearedLastDrain(s, mark, base, target);
    }
  }

  // The old job can still reach the target.

  lemma StalePassed(s: State, mark: nat, base: nat, target: real)
    requires Poised(s, mark, base) && s.w.pc.Passed? && s.w.pc.job.number < mark
    ensures Breaks(s, mark, base, target)
  {
    var u := Step(s, ClearTarget);
    PoisedStill(s, ClearTarget, mark, base);
    PoisedStill(u, Publish(true), mark, base);
    ClearedDrain(Step(u, Publish(true)), mark, base, target);
    BreaksBefore(u, Publish(true), mark, base, target);
    BreaksBefore(s, ClearTarget, mark, base, target);
  }

  lemma StaleOutput(s: State, mark: nat, base: nat, target: real)
    requires Poised(s, mark, base) && s.w.pc.Draining? && s.w.pc.job.number < mark
    requires s.w.codec.output > 0 && s.sh.target == target
    ensures Breaks(s, mark, base, target)
  {
    var e := Receive(Usable(target), false);
    var u := Step(s, e);
    PoisedStill(s, e, mark, base);
    PoisedStill(u, CheckTarget, mark, base);
    StalePassed(Step(u, CheckTarget), mark, base, target);
    BreaksBefore(u, CheckTarget, mark, base, target);
    BreaksBefore(s, e, mark, base, target);
  }

  lemma StaleOffer(s: State, mark: nat, base: nat, target: real)
    requires Poised(s, mark, base) && (s.w.pc.Sending? || s.w.pc.Resending?) && s.w.pc.job.number < mark
    requires s.w.pc.Sending? && s.w.pc.job.eos && s.w.flushed ==> s.w.codec.output > 0
    requires s.sh.target == target
    ensures Breaks(s, mark, base, target)
  {
    var e := Send(Accepted(1), false, Failed);
    PoisedStill(s, e, mark, base);
    StaleOutput(Step(s, e), mark, base, target);
    BreaksBefore(s, e, mark, base, target);
  }

  lemma StaleDrain(s: State, mark: nat, base: nat, target: real)
    requires Poised(s, mark, base) && s.w.pc.Draining? && s.w.pc.job.number < mark
    requires !Dry(s.w, s.w.pc.retry) && s.sh.target == target
    ensures Breaks(s, mark, base, target)
  {
    if s.w.codec.output > 0 {
      StaleOutput(s, mark, base, target);
    } else {
      var e := Receive(NoMore, false);
      PoisedStill(s, e, mark, base);
      StaleOffer(Step(s, e), mark, base, target);
      BreaksBefore(s, e, mark, base, target);
    }
  }

  lemma StaleFrame(s: State, mark: nat, base: nat, target: real)
    requires Poised(s, mark, base) && (s.w.pc.Received? || s.w.pc.Cleared?) && s.w.pc.job.number < mark
    requires (s.w.pc.Received? && s.w.pc.pts >= target) || !Dry(s.w, s.w.pc.retry)
    requires s.sh.target == target
    ensures Breaks(s, mark, base, target)
  {
    var e := if s.w.pc.Received? then CheckTarget else Publish(true);
    PoisedStill(s, e, mark, base);
    var u := Step(s, e);
    if u.w.pc.Passed? { StalePassed(u, mark, base, target); } else { StaleDrain(u, mark, base, target); }
    BreaksBefore(s, e, mark, base, target);
  }

  lemma StalePopped(s: State, mark: nat, base: nat, target: real)
    requires Poised(s, mark, base) && s.w.pc.Popped? && s.w.pc.job.number < mark
    requires s.sh.pendingFlush && s.sh.target == target
    ensures Breaks(s, mark, base, target)
  {
    PoisedStill(s, Begin, mark, base);
    StaleOffer(Step(s, Begin), mark, base, target);
    BreaksBefore(s, Begin, mark, base, target);
  }

  lemma InTheWayBreaks(s: State, target: real)
    requires Enabled(s, BeginSeek(target)) && !OutOfTheWay(s.w, target) && CodecInv(s.w)
    requires s.w.pc.Holds() ==> s.w.pc.job.number < s.h.count
    ensures Breaks(Step(s, BeginSeek(target)), s.h.count, |s.h.published|, target)
  {
    var u, mark, base := Step(s, BeginSeek(target)), s.h.count, |s.h.published|;
    assert Poised(u, mark, base) && u.w == s.w && u.sh.target == target && u.sh.pendingFlush;
    hide Step, Enabled, Poised, Breaks;
    match u.w.pc
    case Popped(_) => StalePopped(u, mark, base, target);
    case Sending(_) => StaleOffer(u, mark, base, target);
    case Resending(_) => StaleOffer(u, mark, base, target);
    case Draining(_, _) => StaleDrain(u, mark, base, target);
    case Received(_, _, _) => StaleFrame(u, mark, base, target);
    case Passed(_, _, _) => StalePassed(u, mark, base, target);
    case Cleared(_, _, _) => StaleFrame(u, mark, base, target);
    case _ =>
  }

  lemma BreakingDoesNotIsolate(s: State, target: real)
    requires Enabled(s, BeginSeek(target)) && Breaks(Step(s, BeginSeek(target)), s.h.count, |s.h.published|, target)
    ensures !SeekIsolates(s, target)
  {
    hide Step, Enabled;
    var mark, base := s.h.count, |s.h.published|;
    var events, t :|
      && Reaches(Step(s, BeginSeek(target)), events, t) && Undisturbing(events)
      && base <= |t.h.published| && !FirstNewFrameFrom(t.h.published[base..], mark, target);
    assert !Isolated(t, mark, base, target);
  }

  // ---- Main results -------------------------------------------------------------------------

  lemma SeekFacts(codec: Codec, hw: bool, past: seq<Event>, s: State)
    requires Reaches(Initial(codec, hw), past, s)
    ensures CodecInv(s.w) && CountInv(s) && (s.w.pc.Holds() ==> s.w.pc.job.number < s.h.count)
  {
    InitialInv(codec, hw);
    EveryRunKeepsInv(Initial(codec, hw), past, s);
    HeldIsOld(s);
    hide Reaches, OrderInv, CodecInv, CountInv;
  }

  /** Whatever the codec refuses, retries or reopens, a seek isolates the new position from the old
      exactly when the job held at that moment is out of its way. */
  lemma SeekIsolatesIff(codec: Codec, hw: bool, past: seq<Event>, s: State, target: real)
    requires Reaches(Initial(codec, hw), past, s) && Enabled(s, BeginSeek(target)) && target >= 0.0
    ensures SeekIsolates(s, target) <==> OutOfTheWay(s.w, target)
  {
    SeekFacts(codec, hw, past, s);
    hide Reaches, Step, Enabled, OutOfTheWay, SeekIsolates, Breaks;
    if OutOfTheWay(s.w, target) {
      OutOfTheWayIsolates(s, target);
    } else {
      InTheWayBreaks(s, target);
      BreakingDoesNotIsolate(s, target);
    }
  }

  /** What a caller can check: with nothing outstanding, a seek isolates. */
  lemma NothingOutstandingIsolates(codec: Codec, hw: bool, past: seq<Event>, s: State, target: real)
    requires Reaches(Initial(codec, hw), past, s) && Enabled(s, BeginSeek(target)) && target >= 0.0
    requires s.sh.outstanding == 0
    ensures SeekIsolates(s, target)
  {
    SeekFacts(codec, hw, past, s);
    DestroyedIsEmpty(Initial(codec, hw), past, s);
    SeekIsolatesIff(codec, hw, past, s, target);
    hide Reaches, SeekIsolates;
  }

  predicate FromNewJobs(results: seq<Result>, mark: nat) {
    forall i :: 0 <= i < |results| ==> mark <= results[i].job
  }

  lemma StepPublishesNew(s: State, e: Event, mark: nat, since: seq<Result>)
    requires OnlyNewPackets(s, mark) && Enabled(s, e) && FromNewJobs(since, mark)
    ensures FromNewJobs(since + Published(s, e), mark)
  {
    hide CodecIsNew, Step;
  }

  lemma {:induction false} RunKeepsNewPackets(s: State, events: seq<Event>, t: State, mark: nat, base: nat)
    requires Reaches(s, events, t) && (forall e: Event :: e in events ==> !e.BeginSeek?)
    requires OnlyNewPackets(s, mark) && CodecInv(s.w)
    requires base <= |s.h.published| && FromNewJobs(s.h.published[base..], mark)
    ensures OnlyNewPackets(t, mark)
    ensures base <= |t.h.published| && FromNewJobs(t.h.published[base..], mark)
    decreases |events|
  {
    hide OnlyNewPackets, CodecInv, Step, Enabled, FromNewJobs;
    if events != [] {
      var e := events[0];
      StepKeepsNewPackets(s, e, mark);
      StepPublishesNew(s, e, mark, s.h.published[base..]);
      PublishedGrows(s, e, base);
      StepKeepsCodec(s, e);
      RunKeepsNewPackets(Step(s, e), events[1..], t, mark, base);
    }
  }

  lemma IdleSeekStarts(s: State, target: real)
    requires !s.w.pc.Holds() && Enabled(s, BeginSeek(target))
    ensures OnlyNewPackets(Step(s, BeginSeek(target)), s.h.count)
    ensures CodecInv(Step(s, BeginSeek(target)).w) <==> CodecInv(s.w)
    ensures Step(s, BeginSeek(target)).h.published == s.h.published
    ensures OutOfTheWay(s.w, target)
  {}

  /** A seek that takes the lock while the worker holds no job: until the next seek, whatever the codec
      refuses, retries or reopens, the worker takes up, feeds and publishes only what was submitted after
      the seek; and unless copying a frame runs out of memory, the first frame is at or past the target. */
  lemma SeekIsolation(codec: Codec, hw: bool, past: seq<Event>, s: State, target: real, events: seq<Event>, t: State)
    requires Reaches(Initial(codec, hw), past, s)
    requires !s.w.pc.Holds() && Enabled(s, BeginSeek(target)) && target >= 0.0
    requires Reaches(Step(s, BeginSeek(target)), events, t)
    requires forall e: Event :: e in events ==> !e.BeginSeek?
    ensures OnlyNewPackets(t, s.h.count)
    ensures t.w.pc.Sending? || t.w.pc.Resending? || t.w.pc.InDrain() ==> CodecIsNew(t.w.codec, s.h.count)
    ensures |s.h.published| <= |t.h.published|
    ensures FromNewJobs(t.h.published[|s.h.published|..], s.h.count)
    ensures Publish(false) !in events ==>
              FirstNewFrameFrom(t.h.published[|s.h.published|..], s.h.count, target)
  {
    SeekFacts(codec, hw, past, s);
    IdleSeekStarts(s, target);
    SeekIsolatesIff(codec, hw, past, s, target);
    hide Reaches, Step, Enabled, FirstNewFrameFrom, CountInv, CodecInv, OutOfTheWay;
    RunKeepsNewPackets(Step(s, BeginSeek(target)), events, t, s.h.count, |s.h.published|);
    if Publish(false) !in events {
      assert Undisturbing(events);
      assert Isolated(t, s.h.count, |s.h.published|, target);
    }
  }

  // ---- Seeks in the way, reached ------------------------------------------------------------

  lemma {:induction false} ReachesAppend(s: State, a: seq<Event>, t: State, b: seq<Event>, u: State)
    requires Reaches(s, a, t) && Reaches(t, b, u)
    ensures Reaches(s, a + b, u)
    decreases |a|
  {
    hide Step, Enabled;
    if a == [] {
      assert a + b == b;
    } else {
      ReachesAppend(Step(s, a[0]), a[1..], t, b, u);
      assert (a + b)[1..] == a[1..] + b;
    }
  }

  lemma Do2(s: State, es: seq<Event>)
    requires |es| == 2 && Enabled(s, es[0]) && Enabled(Step(s, es[0]), es[1])
    ensures Reaches(s, es, Step(Step(s, es[0]), es[1]))
  {
    hide Step, Enabled;
    var t := Step(Step(s, es[0]), es[1]);
    assert es[1..][1..] == [];
    assert Reaches(t, [], t);
    assert Reaches(Step(s, es[0]), es[1..], t);
  }

  /** Four steps in a row. */
  lemma Do4(s: State, es: seq<Event>) returns (t: State)
    requires |es| == 4
    requires Enabled(s, es[0]) && Enabled(Step(s, es[0]), es[1])
    requires Enabled(Step(Step(s, es[0]), es[1]), es[2])
    requires Enabled(Step(Step(Step(s, es[0]), es[1]), es[2]), es[3])
    ensures t == Step(Step(Step(Step(s, es[0]), es[1]), es[2]), es[3])
    ensures Reaches(s, es, t)
  {
    hide Step, Enabled;
    var s2 := Step(Step(s, es[0]), es[1]);
    t := Step(Step(s2, es[2]), es[3]);
    Do2(s, es[..2]);
    Do2(s2, es[2..]);
    ReachesAppend(s, es[..2], s2, es[2..], t);
    assert es[..2] + es[2..] == es;
  }

  /** An idle worker takes the next packet into its codec, which then has `output` frames to give. */
  lemma NextPacket(u: State, output: nat) returns (events: seq<Event>, t: State)
    requires u.w.pc.Waiting? && u.sh.queue == [] && !u.sh.stop && u.w.codec.Codec?
    ensures Reaches(u, events, t) && Undisturbing(events)
    ensures t.w.pc == Draining(Job(u.h.count, false, 0), false)
    ensures t.w.codec.Codec? && t.w.codec.output == output && t.w.hwActive == u.w.hwActive
    ensures !t.sh.pendingFlush && (!u.sh.pendingFlush ==> u.w.codec.fed <= t.w.codec.fed)
    ensures t.sh.target == u.sh.target && t.h.published == u.h.published && t.h.count == u.h.count + 1
    ensures t.sh.queue == [] && !t.sh.stop
  {
    events := [Submit(false, 0), Pop, Begin, Send(Accepted(output), false, Failed)];
    assert ([] + [Job(u.h.count, false, 0)])[1..] == [];
    t := Do4(u, events);
  }

  /** The run is real: a frame decoded before the seek passes the check, then clears the target the seek has
      just set, and the first frame of the new position comes out although it lies before the target. */
  lemma StaleFrameClearsTheTarget(target: real)
    requires target > 0.0
    ensures exists past: seq<Event>, s: State, events: seq<Event>, t: State ::
              && Reaches(Initial(Codec({}, 0), false), past, s)
              && s.w.pc.Passed? && Enabled(s, BeginSeek(target))
              && Reaches(Step(s, BeginSeek(target)), events, t) && Undisturbing(events)
              && |s.h.published| <= |t.h.published|
              && !FirstNewFrameFrom(t.h.published[|s.h.published|..], s.h.count, target)
  {
    var s0 := Initial(Codec({}, 0), false);
    var past1, s1 := NextPacket(s0, 1);
    var past2, s := PassedFrame(s1);
    ReachesAppend(s0, past1, s1, past2, s);
    SeekFacts(Codec({}, 0), false, past1 + past2, s);
    hide Reaches, Step, FirstNewFrameFrom, CodecInv, CountInv;
    InTheWayBreaks(s, target);
    var events, t :|
      && Reaches(Step(s, BeginSeek(target)), events, t) && Undisturbing(events)
      && |s.h.published| <= |t.h.published|
      && !FirstNewFrameFrom(t.h.published[|s.h.published|..], s.h.count, target);
  }

  lemma PassedFrame(u: State) returns (events: seq<Event>, t: State)
    requires u.w.pc.Draining? && u.w.codec.Codec? && u.w.codec.output > 0 && u.sh.target < 0.0 && !u.sh.stop
    ensures Reaches(u, events, t) && t.w.pc.Passed? && !t.sh.stop
  {
    events := [Receive(Usable(0.0), false), CheckTarget];
    Do2(u, events);
    t := Step(Step(u, events[0]), events[1]);
  }

  /** Between the pop and the flush: the seek's flush is spent on the job from before it, whose packet
      then sits in the codec together with the first packet of the new position. */
  lemma SeekAfterPopWastesTheFlush(target: real)
    ensures exists past: seq<Event>, s: State, events: seq<Event>, t: State ::
              && Reaches(Initial(Codec({}, 0), false), past, s)
              && s.w.pc.Popped? && Enabled(s, BeginSeek(target))
              && Reaches(Step(s, BeginSeek(target)), events, t) && Undisturbing(events)
              && t.w.pc.Draining? && t.w.pc.job.number >= s.h.count
              && !t.sh.pendingFlush && !CodecIsNew(t.w.codec, s.h.count)
  {
    var s0 := Initial(Codec({}, 0), false);
    var past := [Submit(false, 0), Pop];
    var s := Step(Step(s0, past[0]), past[1]);
    Do2(s0, past);
    assert [Job(0, false, 0)][1..] == [];
    var u := Step(s, BeginSeek(target));
    assert u.sh.queue == [] && u.sh.pendingFlush && !u.sh.stop && u.h.count == 1;
    assert u.w.pc == Popped(Job(0, false, 0)) && u.w.codec.Codec?;
    var events, t := AfterWastedFlush(u);
  }

  lemma AfterWastedFlush(u: State) returns (events: seq<Event>, t: State)
    requires u.sh.queue == [] && u.sh.pendingFlush && !u.sh.stop && u.h.count == 1
    requires u.w.pc == Popped(Job(0, false, 0)) && u.w.codec.Codec?
    ensures Reaches(u, events, t) && Undisturbing(events)
    ensures t.w.pc == Draining(Job(1, false, 0), false)
    ensures !t.sh.pendingFlush && t.w.codec.Codec? && 0 in t.w.codec.fed
  {
    hide Reaches, Step, Enabled;
    var e1, u1 := WastedFlush(u);
    var e2;
    e2, t := NextPacket(u1, 1);
    ReachesAppend(u, e1, u1, e2, t);
    events := e1 + e2;
  }

  lemma WastedFlush(u: State) returns (events: seq<Event>, t: State)
    requires u.sh.queue == [] && u.sh.pendingFlush && !u.sh.stop && u.h.count == 1
    requires u.w.pc == Popped(Job(0, false, 0)) && u.w.codec.Codec?
    ensures Reaches(u, events, t) && Undisturbing(events)
    ensures t.w.pc.Waiting? && !t.sh.pendingFlush && t.w.codec.Codec? && 0 in t.w.codec.fed
    ensures t.sh.queue == [] && !t.sh.stop && t.h.count == 1
  {
    events := [Begin, Send(Accepted(0), false, Failed), Receive(NoMore, false), JobFinished];
    t := Do4(u, events);
  }

  /** Even an isolated seek needs its frames copied: one that cannot be has already cleared the target. */
  lemma FailedCopyClearsTheTarget(target: real)
    requires target > 0.0
    ensures exists events: seq<Event>, t: State ::
              && Reaches(Step(Initial(Codec({}, 0), false), BeginSeek(target)), events, t)
              && (forall e: Event :: e in events ==> !e.BeginSeek?)
              && !FirstNewFrameFrom(t.h.published, 0, target)
  {
    var u := Step(Initial(Codec({}, 0), false), BeginSeek(target));
    var e1, u1 := NextPacket(u, 2);
    assert u1.h.published == [];
    hide Reaches, Step, Enabled;
    var e2, u2 := FailedCopy(u1, target);
    var e3, t := FrameAtZero(u2);
    EarlyFrame(t.h.published, target);
    ReachesAppend(u1, e2, u2, e3, t);
    ReachesAppend(u, e1, u1, e2 + e3, t);
    assert forall e: Event :: e in e1 + (e2 + e3) ==> !e.BeginSeek?;
  }

  lemma EarlyFrame(published: seq<Result>, target: real)
    requires published == [Frame(0, 0, 0.0)] && target > 0.0
    ensures !FirstNewFrameFrom(published, 0, target)
  {
    assert NewFrame(published[0], 0) && NoNewFrame(published[..0], 0);
  }

  lemma FailedCopy(u: State, target: real) returns (events: seq<Event>, t: State)
    requires u.w.pc == Draining(Job(0, false, 0), false) && u.w.codec.Codec? && u.w.codec.output == 2
    requires u.sh.target == target && u.h.published == []
    ensures Reaches(u, events, t) && forall e: Event :: e in events ==> !e.BeginSeek?
    ensures t.w.pc == u.w.pc && t.w.codec.Codec? && t.w.codec.output == 1
    ensures t.sh.target == -1.0 && t.h.published == []
  {
    events := [Receive(Usable(target), false), CheckTarget, ClearTarget, Publish(false)];
    t := Do4(u, events);
  }

  /** Without a target, a frame at 0.0 is published. */
  lemma FrameAtZero(u: State) returns (events: seq<Event>, t: State)
    requires u.w.pc == Draining(Job(0, false, 0), false) && u.w.codec.Codec? && u.w.codec.output == 1
    requires u.sh.target == -1.0 && u.h.published == []
    ensures Reaches(u, events, t) && forall e: Event :: e in events ==> !e.BeginSeek?
    ensures t.h.published == [Frame(0, 0, 0.0)]
  {
    events := [Receive(Usable(0.0), false), CheckTarget, ClearTarget, Publish(true)];
    t := Do4(u, events);
  }
}
