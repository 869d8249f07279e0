/** The worker object itself, method by method as in video_decode_worker.cpp; between any two lock-protected or atomic
    accesses of the worker thread the render thread may run (`RenderThread`). Every execution is a run
    of the protocol: `Valid` says that `trace` leads from the initial state to the present one. */
module VideoDecodeWorker {
  import opened Common
  import opened VideoDecodeProtocol
  import L = VideoCodecLog

  class Worker {
    // guarded by the mutex; `target` is atomic
    var queue: seq<Job>
    var done: seq<Result>
    var outstanding: nat
    var pendingFlush: bool
    var stop: bool
    var target: real
    var serial: nat              // names the next job: the identity of its packet
    // the worker thread's own
    var codec: Codec
    var hwActive: bool
    var flushed: bool
    // how far the run has come
    ghost const codec0: Codec
    ghost const hw0: bool
    ghost var pc: Pc
    ghost var freed: seq<nat>
    ghost var h: History
    ghost var trace: seq<Event>
    ghost var log: seq<L.CodecCall>    // every call to the codec, oldest first

    ghost function Abs(): State
      reads `queue, `done, `outstanding, `pendingFlush, `stop, `target, `codec, `hwActive, `flushed, `pc, `freed, `h
    {
      State(Shared(queue, done, outstanding, pendingFlush, stop, target),
            Mine(), h)
    }

    ghost predicate Valid()
      reads `queue, `done, `outstanding, `pendingFlush, `stop, `target, `serial, `codec, `hwActive, `flushed, `pc,
            `freed, `h, `trace
    {
      serial == h.count && Reaches(Initial(codec0, hw0), trace, Abs())
    }

    ghost function Fields(): L.Fields reads `codec, `hwActive, `flushed, `freed {
      L.Fields(codec, hwActive, flushed, freed)
    }

    /** The worker's own fields are what the calls to the codec have made of them, and nothing is due to it. */
    ghost predicate Rested() reads `log, `codec, `hwActive, `flushed, `freed {
      L.Quiet(codec0, hw0, log, Fields(), None)
    }

    constructor (codec: Codec, hw: bool)
      ensures Valid() && Abs() == Initial(codec, hw) && Rested() && log == []
    {
      queue, done, outstanding, pendingFlush, stop, target := [], [], 0, false, false, -1.0;
      this.codec, hwActive, flushed := codec, hw, false;
      codec0, hw0 := codec, hw;
      pc, freed, trace, log, serial := Waiting, [], [], [], 0;
      h := Initial(codec, hw).h;
    }

    /** The fields have just made step `e` from `before`. */
    ghost method Record(before: State, e: Event)
      requires Reaches(Initial(codec0, hw0), trace, before)
      requires Takes(before, e, Abs()) && serial == h.count
      modifies `trace
      ensures Valid() && trace == old(trace) + [e]
    {
      ReachesSnoc(Initial(codec0, hw0), trace, before, e);
      trace := trace + [e];
    }

    // ---- Render thread --------------------------------------------------------------------

    method Submit(eos: bool, generation: nat)
      requires Valid() && !stop
      modifies `queue, `serial, `outstanding, `h, `trace
      ensures Valid() && Abs() == Step(old(Abs()), Event.Submit(eos, generation))
      ensures trace == old(trace) + [Event.Submit(eos, generation)]
    {
      hide Reaches;
      ghost var before := Abs();
      queue := queue + [Job(serial, eos, generation)];
      outstanding := outstanding + 1;
      serial := serial + 1;
      h := Step(before, Event.Submit(eos, generation)).h;
      Record(before, Event.Submit(eos, generation));
    }

    method BeginSeek(targetPts: real)
      requires Valid() && !stop
      modifies `queue, `outstanding, `target, `pendingFlush, `h, `trace
      ensures Valid() && Abs() == Step(old(Abs()), Event.BeginSeek(targetPts))
      ensures trace == old(trace) + [Event.BeginSeek(targetPts)]
    {
      hide Reaches, Packets, BeginJob, SendPacket, ReceiveFrame, FinishJob, SubmitJob, At;
      ghost var before := Abs();
      var n := |queue|;
      DropQueued();
      outstanding := if outstanding >= n then outstanding - n else (outstanding - n) % SIZE_T;
      target := targetPts;
      pendingFlush := true;
      Record(before, Event.BeginSeek(targetPts));
    }

    /** av_packet_free on every queued packet. */
    method FreeQueue() returns (ghost dropped: seq<nat>)
      ensures dropped == Packets(queue)
    {
      dropped := [];
      for i := 0 to |queue|
        invariant dropped == Packets(queue[..i])
      {
        assert queue[..i + 1][..i] == queue[..i];
        if !queue[i].eos { dropped := dropped + [queue[i].number]; }
      }
      assert queue[..|queue|] == queue;
    }

    method DropQueued()
      modifies `queue, `h
      ensures queue == [] && h == old(h).(dropped := old(h).dropped + Packets(old(queue)))
    {
      ghost var dropped := FreeQueue();
      queue := [];
      h := h.(dropped := h.dropped + dropped);
    }

    method TakeResult() returns (r: Option<Result>)
      requires Valid() && !stop
      modifies `done, `h, `trace
      ensures Valid()
      ensures r == if old(done) == [] then None else Some(old(done)[0])
      ensures Abs() == if old(done) == [] then old(Abs()) else Step(old(Abs()), Take)
      ensures old(trace) <= trace
    {
      hide Reaches;
      if done == [] { return None; }
      ghost var before := Abs();
      r := Some(done[0]);
      h := Step(before, Take).h;
      done := done[1..];
      Record(before, Take);
    }

    method RequestStop()
      requires Valid() && !stop
      modifies `stop, `trace
      ensures Valid() && Abs() == Step(old(Abs()), Stop) && trace == old(trace) + [Stop]
    {
      hide Reaches;
      ghost var before := Abs();
      stop := true;
      Record(before, Stop);
    }

    /** The destructor after the join. */
    method Destroy()
      requires Valid() && stop && pc.Exited? && !h.destroyed
      modifies `queue, `h, `trace
      ensures Valid() && Abs() == Step(old(Abs()), Event.Destroy) && trace == old(trace) + [Event.Destroy]
    {
      hide Reaches;
      ghost var before := Abs();
      DropQueued();
      h := h.(destroyed := true);
      Record(before, Event.Destroy);
    }

    /** Any number of the render thread's calls; the worker's own fields stay as they are. */
    method RenderThread()
      requires Valid()
      modifies `queue, `done, `outstanding, `pendingFlush, `stop, `target, `serial, `h, `trace
      ensures Valid() && old(trace) <= trace && (old(stop) ==> stop)
      ensures h.published == old(h).published
    {
      hide Reaches;
      var calls: nat := *;
      while calls > 0
        invariant Valid() && old(trace) <= trace && (old(stop) ==> stop) && h.published == old(h).published
      {
        var call: nat := *;
        if stop {
        } else if call == 0 {
          var eos, generation := *, *;
          Submit(eos, generation);
        } else if call == 1 {
          var t := *;
          BeginSeek(t);
        } else if call == 2 {
          var _ := TakeResult();
        } else {
          RequestStop();
        }
        calls := calls - 1;
      }
    }

    // ---- Worker thread --------------------------------------------------------------------

    /** avcodec_send_packet on an open context. */
    method CodecSend(job: Job) returns (ret: SendResult)
      requires codec.Codec?
      modifies `log
      ensures log == old(log) + [L.Offered(job, ret)]
    {
      ret := *;
      log := log + [L.Offered(job, ret)];
    }

    /** avcodec_receive_frame and what precedes the seek check; a codec gives finitely many frames. */
    method CodecReceive() returns (got: ReceiveResult)
      requires codec.Codec?
      modifies `log
      ensures got.Unusable? || got.Usable? ==> codec.output > 0
      ensures log == old(log) + [L.Answered(got)]
    {
      got := *;
      if codec.output == 0 && (got.Unusable? || got.Usable?) { got := NoMore; }
      log := log + [L.Answered(got)];
    }

    /** avcodec_flush_buffers. */
    method FlushBuffers()
      requires codec.Codec?
      modifies `codec, `log
      ensures codec == Codec({}, 0) && log == old(log) + [L.Flushed]
    {
      codec := Codec({}, 0);
      log := log + [L.Flushed];
    }

    /** av_packet_free: only a packet is freed, a marker has none. */
    method FreePacket(job: Job)
      modifies `freed, `log
      ensures freed == old(freed) + if job.eos then [] else [job.number]
      ensures log == old(log) + [L.LetGo(job)]
    {
      if !job.eos { freed := freed + [job.number]; }
      log := log + [L.LetGo(job)];
    }

    method ReopenSoftwareOnly() returns (ok: bool)
      modifies `codec, `hwActive, `flushed, `log
      ensures Mine() == Reopen(old(Mine()), ok)
      ensures log == old(log) + [L.Reopened(ok)]
    {
      hwActive := false;
      codec := NoCodec;
      ok := *;
      if ok { codec, flushed := Codec({}, 0), false; }
      log := log + [L.Reopened(ok)];
    }

    /** The wait is over: stop, or a job. */
    method WaitForJob() returns (job: Option<Job>)
      requires Valid() && pc.Waiting? && (stop || queue != [])
      modifies `queue, `pc, `trace
      ensures Valid() && Abs() == Step(old(Abs()), Pop) && trace == old(trace) + [Pop]
      ensures job == if stop then None else Some(old(queue)[0])
      ensures pc == if stop then Exited else Popped(job.value)
    {
      hide Reaches;
      ghost var before := Abs();
      if stop {
        job, pc := None, Exited;
      } else {
        job, pc := Some(queue[0]), Popped(queue[0]);
        queue := queue[1..];
      }
      Record(before, Pop);
    }

    method PublishResult(r: Result)
      modifies `done, `h
      ensures done == old(done) + [r]
      ensures h == old(h).(published := old(h).published + [r], partial := old(h).partial + [r])
    {
      done := done + [r];
      h := h.(published := h.published + [r], partial := h.partial + [r]);
    }

    method PublishEofResult(job: Job)
      requires Valid() && pc == EndingStream(job)
      modifies `done, `h, `pc, `trace
      ensures Valid() && pc == Finishing(job)
      ensures Abs() == Step(old(Abs()), Event.PublishEof) && trace == old(trace) + [Event.PublishEof]
    {
      hide Reaches;
      ghost var before := Abs();
      PublishResult(Eof(job.generation, job.number));
      pc := Finishing(job);
      Record(before, Event.PublishEof);
    }

    method FinishedJob(job: Job)
      requires Valid() && pc == Finishing(job)
      modifies `outstanding, `h, `pc, `trace
      ensures Valid() && pc == Waiting
      ensures Abs() == Step(old(Abs()), JobFinished) && trace == old(trace) + [JobFinished]
    {
      hide Reaches, BeginJob, SendPacket, ReceiveFrame, SubmitJob, SeekTo, DropQueue;
      ghost var before := Abs();
      if outstanding > 0 { outstanding := outstanding - 1; }
      pc := Waiting;
      h := FinishJob(before).h;
      Record(before, JobFinished);
    }

    /** A second marker in a row: the codec has been told, and is only drained. */
    ghost method SkipMarker(job: Job)
      requires Valid() && pc == Sending(job) && job.eos && flushed
      modifies `pc, `trace
      ensures Valid() && old(trace) <= trace && pc == Draining(job, false)
    {
      hide Reaches, BeginJob, ReceiveFrame, SubmitJob, SeekTo, FinishJob, Settle;
      ghost var before := Abs();
      pc := Draining(job, false);
      Record(before, Send(Failed, false, Failed));
    }

    /** Stands in `send_packet` after the packet was accepted, or past it with the job over. */
    method SendHeldPacket(job: Job) returns (ok: bool)
      requires Valid() && pc == Sending(job) && codec.Codec?
      requires Rested()
      modifies this
      ensures Valid() && old(trace) <= trace && Rested()
      ensures if ok then pc == Draining(job, false) && codec.Codec? else pc == Finishing(job)
    {
      hide *;
      if job.eos && flushed {
        SkipMarker(job);
        return true;
      }
      var ret := OfferPacket(job);
      RenderThread();
      ghost var reopened, retryRet;
      ok, reopened, retryRet := SettleSend(job, ret);
      if !ok && job.eos {
        RenderThread();
        PublishEofResult(job);
      }
    }

    /** The codec's answer to the packet; a full codec is drained and asked once more. */
    method OfferPacket(job: Job) returns (ret: SendResult)
      requires Valid() && pc == Sending(job) && codec.Codec? && !(job.eos && flushed) && Rested()
      modifies this
      ensures Valid() && old(trace) <= trace
      ensures if codec.Codec? then L.HasAnswered(codec0, hw0, log, Fields(), job, ret)
              else L.LastAnswer(codec0, hw0, log, Fields(), job, ret) && !hwActive
      ensures pc == Sending(job) || pc == Resending(job)
      ensures codec.NoCodec? ==> ret.Failed? && pc.Resending?
      ensures pc.Sending? ==> !ret.Again? && !(job.eos && flushed)
    {
      hide Valid, L.Quiet, L.Drains, L.HasAnswered, L.LastAnswer;
      ghost var calls := log;
      ret := CodecSend(job);
      L.FirstOffer(codec0, hw0, calls, Fields(), job, ret);
      if ret.Again? {
        DrainForRetry(job);
        ret := Failed;
        if codec.Codec? {
          calls := log;
          ret := CodecSend(job);
          L.SecondOffer(codec0, hw0, calls, Fields(), job, ret);
        } else {
          L.LostWhileDraining(codec0, hw0, log, Fields(), job);
        }
      }
    }

    method DrainForRetry(job: Job)
      requires Valid() && pc == Sending(job) && codec.Codec? && !(job.eos && flushed)
      requires L.Drains(codec0, hw0, log, Fields(), Some(job))
      modifies this
      ensures Valid() && old(trace) <= trace && pc == Resending(job)
      ensures L.Quiet(codec0, hw0, log, Fields(), Some(job)) && (codec.NoCodec? ==> !hwActive)
    {
      hide Reaches, BeginJob, ReceiveFrame, SubmitJob, SeekTo, FinishJob, Settle, L.Drains, L.Quiet;
      ghost var before := Abs();
      pc := Draining(job, true);
      Record(before, Send(Again, false, Failed));
      DecodeAvailableFrames(job, true, Some(job));
    }

    ghost function Mine(): VideoDecodeProtocol.Worker reads `codec, `hwActive, `flushed, `pc, `freed {
      VideoDecodeProtocol.Worker(pc, codec, hwActive, flushed, freed)
    }

    /** After a failure on hardware: once more, in software. */
    method RetryInSoftware(job: Job, answer: SendResult)
      returns (ret: SendResult, ghost reopened: bool, ghost retryRet: SendResult)
      requires if codec.Codec? then L.HasAnswered(codec0, hw0, log, Fields(), job, answer)
               else L.LastAnswer(codec0, hw0, log, Fields(), job, answer) && !hwActive
      modifies `codec, `hwActive, `flushed, `log
      ensures var retry := answer.Failed? && old(hwActive);
              && Mine() == (if retry then Reopen(old(Mine()), reopened) else old(Mine()))
              && ret == (if retry && reopened then retryRet else answer)
      ensures L.LastAnswer(codec0, hw0, log, Fields(), job, ret)
    {
      assert L.LastAnswer(codec0, hw0, log, Fields(), job, answer) || (answer.Failed? && hwActive);
      hide L.LastAnswer, L.HasAnswered;
      ghost var calls, f := log, Fields();
      ret := answer;
      reopened, retryRet := false, Failed;
      if ret.Failed? && hwActive {
        var nowOpen := ReopenSoftwareOnly();
        if nowOpen {
          ret := CodecSend(job);
          L.OfferedAgain(codec0, hw0, calls, f, job, answer, ret);
        } else {
          L.NotReopened(codec0, hw0, calls, f, job, answer);
        }
        reopened, retryRet := nowOpen, ret;
      }
    }

    /** Acts on the codec's answer: reopen and resend after a hardware failure, free the packet. */
    method ActOnAnswer(job: Job, answer: SendResult)
      returns (ok: bool, ghost reopened: bool, ghost retryRet: SendResult)
      requires if codec.Codec? then L.HasAnswered(codec0, hw0, log, Fields(), job, answer)
               else L.LastAnswer(codec0, hw0, log, Fields(), job, answer) && !hwActive
      modifies `codec, `hwActive, `flushed, `freed, `pc, `log
      ensures Mine() == Settle(old(Mine()), job, answer, reopened, retryRet) && Rested()
      ensures if ok then pc == Draining(job, false) && codec.Codec?
              else pc == if job.eos then EndingStream(job) else Finishing(job)
    {
      hide L.LastAnswer, L.HasAnswered, L.Quiet;
      var ret;
      ret, reopened, retryRet := RetryInSoftware(job, answer);
      ok := FreeAndSettle(job, ret);
    }

    /** The packet is freed; what the codec has accepted is in it. */
    method FreeAndSettle(job: Job, ret: SendResult) returns (ok: bool)
      requires L.LastAnswer(codec0, hw0, log, Fields(), job, ret)
      modifies `codec, `flushed, `freed, `pc, `log
      ensures Rested() && ok == ret.Accepted? && (ok ==> old(codec).Codec?)
      ensures Mine() == if ok then Accept(old(Mine()), job, ret.output) else Drop(old(Mine()), job)
      ensures pc == if ok then Draining(job, false) else if job.eos then EndingStream(job) else Finishing(job)
    {
      assert ret.Accepted? ==> codec.Codec?;
      hide L.LastAnswer, L.HasAnswered, L.Quiet;
      L.LetGoAfterAnswer(codec0, hw0, log, Fields(), job, ret);
      FreePacket(job);
      ok := ret.Accepted?;
      if ok {
        flushed := job.eos;
        codec := Codec(if job.eos then codec.fed else codec.fed + {job.number}, ret.output);
        pc := Draining(job, false);
      } else {
        pc := if job.eos then EndingStream(job) else Finishing(job);
      }
    }

    method SettleSend(job: Job, answer: SendResult)
      returns (ok: bool, ghost reopened: bool, ghost retryRet: SendResult)
      requires Valid() && (pc == Sending(job) || pc == Resending(job))
      requires codec.NoCodec? ==> answer.Failed? && pc.Resending?
      requires pc.Sending? ==> !answer.Again? && !(job.eos && flushed)
      requires if codec.Codec? then L.HasAnswered(codec0, hw0, log, Fields(), job, answer)
               else L.LastAnswer(codec0, hw0, log, Fields(), job, answer) && !hwActive
      modifies `codec, `hwActive, `flushed, `freed, `pc, `trace, `log
      ensures Rested()
      ensures var e := Send(answer, reopened, retryRet);
              Valid() && Takes(old(Abs()), e, Abs()) && trace == old(trace) + [e]
      ensures if ok then pc == Draining(job, false) && codec.Codec?
              else pc == if job.eos then EndingStream(job) else Finishing(job)
    {
      hide Reaches, Step, Enabled, Takes, BeginJob, ReceiveFrame, Settle, L.HasAnswered, L.LastAnswer, L.Quiet;
      ghost var before := Abs();
      PrivateTakes(before);
      ok, reopened, retryRet := ActOnAnswer(job, answer);
      Record(before, Send(answer, reopened, retryRet));
    }

    /** Drains the codec's output. With `retry`, only to make room for the packet still held; otherwise
        a marker ends its stream here. Terminates because the codec's output is finite. */
    method DecodeAvailableFrames(job: Job, retry: bool, ghost offering: Option<Job>)
      requires Valid() && pc == Draining(job, retry) && codec.Codec?
      requires L.Drains(codec0, hw0, log, Fields(), offering)
      modifies this
      ensures Valid() && old(trace) <= trace
      ensures pc == if retry then Resending(job) else Finishing(job)
      ensures L.Quiet(codec0, hw0, log, Fields(), offering) && (codec.NoCodec? ==> !hwActive)
    {
      hide *;
      var draining := true;
      while draining
        invariant Valid() && old(trace) <= trace
        invariant if draining then pc == Draining(job, retry) && codec.Codec?
                  else pc == if retry then Resending(job) else if job.eos then EndingStream(job) else Finishing(job)
        invariant if draining then L.Drains(codec0, hw0, log, Fields(), offering)
                  else L.Quiet(codec0, hw0, log, Fields(), offering) && (codec.NoCodec? ==> !hwActive)
        decreases if draining && codec.Codec? then codec.output + 1 else 0
      {
        draining := DrainOne(job, retry, offering);
      }
      if !retry && job.eos {
        RenderThread();
        PublishEofResult(job);
      }
    }

    method DrainOne(job: Job, retry: bool, ghost offering: Option<Job>) returns (more: bool)
      requires Valid() && pc == Draining(job, retry) && codec.Codec?
      requires L.Drains(codec0, hw0, log, Fields(), offering)
      modifies this
      ensures Valid() && old(trace) <= trace
      ensures if more then pc == Draining(job, retry) && codec.Codec? && codec.output < old(codec.output)
              else pc == if retry then Resending(job) else if job.eos then EndingStream(job) else Finishing(job)
      ensures if more then L.Drains(codec0, hw0, log, Fields(), offering)
              else L.Quiet(codec0, hw0, log, Fields(), offering) && (codec.NoCodec? ==> !hwActive)
    {
      hide *;
      RenderThread();
      var got;
      ghost var reopened;
      got, reopened := ReceiveOne(job, retry, offering);
      L.QuietDrains(codec0, hw0, log, Fields(), offering);
      more := got.Unusable? || got.Usable?;
      if got.Usable? { var _ := PublishDecodedFrame(job, retry, got.pts); }
    }

    method ReceiveOne(job: Job, retry: bool, ghost offering: Option<Job>)
      returns (got: ReceiveResult, ghost reopened: bool)
      requires Valid() && pc == Draining(job, retry) && codec.Codec?
      requires L.Drains(codec0, hw0, log, Fields(), offering)
      modifies `codec, `hwActive, `flushed, `pc, `trace, `log
      ensures var e := Receive(got, reopened);
              Takes(old(Abs()), e, Abs()) && trace == old(trace) + [e] && Valid()
      ensures got.NoMore? || got.HardError? ==>
                pc == if retry then Resending(job) else if job.eos then EndingStream(job) else Finishing(job)
      ensures got.Unusable? ==> pc == Draining(job, retry)
      ensures got.Usable? ==> pc == Received(job, retry, got.pts)
      ensures got.Unusable? || got.Usable? ==> codec.Codec? && codec.output < old(codec.output)
      ensures L.Quiet(codec0, hw0, log, Fields(), offering) && (codec.NoCodec? ==> !hwActive)
    {
      hide Reaches, Step, Enabled, Takes, BeginJob, SendPacket, ReceiveFrame, L.Quiet, L.Drains, L.HasGiven;
      ghost var before, calls := Abs(), log;
      PrivateTakes(before);
      got := CodecReceive();
      L.AnswerGiven(codec0, hw0, calls, Fields(), offering, got);
      reopened := TakeFrame(job, retry, got, offering);
      Record(before, Receive(got, reopened));
    }

    /** What the worker does with the codec's answer. */
    method TakeFrame(job: Job, retry: bool, got: ReceiveResult, ghost offering: Option<Job>) returns (ghost reopened: bool)
      requires pc == Draining(job, retry) && codec.Codec? && (got.Unusable? || got.Usable? ==> codec.output > 0)
      requires L.HasGiven(codec0, hw0, log, Fields(), offering, got)
      modifies `codec, `hwActive, `flushed, `pc, `log
      ensures Mine() == ReceiveFrame(old(Mine()), got, reopened)
      ensures got.NoMore? || got.HardError? ==>
                pc == if retry then Resending(job) else if job.eos then EndingStream(job) else Finishing(job)
      ensures got.Unusable? ==> pc == Draining(job, retry)
      ensures got.Usable? ==> pc == Received(job, retry, got.pts)
      ensures got.Unusable? || got.Usable? ==> codec.Codec? && codec.output < old(codec.output)
      ensures L.Quiet(codec0, hw0, log, Fields(), offering) && (codec.NoCodec? ==> !hwActive)
    {
      hide L.Quiet, L.HasGiven;
      ghost var calls, f := log, Fields();
      reopened := false;
      if got.HardError? && hwActive {
        var nowOpen := ReopenSoftwareOnly();
        L.ReopenedAfterError(codec0, hw0, calls, f, offering, got, nowOpen);
        reopened := nowOpen;
      } else {
        if got.Unusable? || got.Usable? { codec := Codec(codec.fed, codec.output - 1); }
        L.NothingToReopen(codec0, hw0, calls, f, offering, got, codec.output);
      }
      if got.NoMore? || got.HardError? {
        pc := AfterDrain(job, retry);
      } else if got.Usable? {
        pc := Received(job, retry, got.pts);
      }
    }

    method PublishDecodedFrame(job: Job, retry: bool, pts: real) returns (published: bool)
      requires Valid() && pc == Received(job, retry, pts)
      modifies `queue, `done, `outstanding, `pendingFlush, `stop, `target, `serial, `h, `pc, `trace
      ensures Valid() && old(trace) < trace && pc == Draining(job, retry)
      ensures h.published == old(h).published + if published then [Frame(job.generation, job.number, pts)] else []
      ensures var last := trace[|trace| - 1];
              if published then last == Publish(true) else last == CheckTarget || last == Publish(false)
    {
      hide *;
      RenderThread();
      published := CheckSeekTarget(job, retry, pts);
      if published {
        RenderThread();
        ClearSeekTarget(job, retry, pts);
        RenderThread();
        published := CopyAndPublish(job, retry, pts);
      }
    }

    /** The atomic load. */
    method CheckSeekTarget(job: Job, retry: bool, pts: real) returns (pass: bool)
      requires Valid() && pc == Received(job, retry, pts)
      modifies `pc, `trace
      ensures Valid() && Abs() == Step(old(Abs()), CheckTarget) && trace == old(trace) + [CheckTarget]
      ensures pass <==> !(target >= 0.0 && pts < target)
      ensures pc == if pass then Passed(job, retry, pts) else Draining(job, retry)
    {
      hide Reaches;
      ghost var before := Abs();
      var seekTarget := target;
      pass := !(seekTarget >= 0.0 && pts < seekTarget);
      pc := if pass then Passed(job, retry, pts) else Draining(job, retry);
      Record(before, CheckTarget);
    }

    /** The atomic store. */
    method ClearSeekTarget(job: Job, retry: bool, pts: real)
      requires Valid() && pc == Passed(job, retry, pts)
      modifies `target, `pc, `trace
      ensures Valid() && Abs() == Step(old(Abs()), ClearTarget) && trace == old(trace) + [ClearTarget]
      ensures target == -1.0 && pc == Cleared(job, retry, pts)
    {
      hide Reaches;
      ghost var before := Abs();
      target, pc := -1.0, Cleared(job, retry, pts);
      Record(before, ClearTarget);
    }

    method CopyAndPublish(job: Job, retry: bool, pts: real) returns (copied: bool)
      requires Valid() && pc == Cleared(job, retry, pts)
      modifies `done, `h, `pc, `trace
      ensures Valid() && Abs() == Step(old(Abs()), Publish(copied)) && trace == old(trace) + [Publish(copied)]
      ensures done == old(done) + if copied then [Frame(job.generation, job.number, pts)] else []
      ensures h.published == old(h).published + if copied then [Frame(job.generation, job.number, pts)] else []
      ensures pc == Draining(job, retry)
    {
      hide Reaches, BeginJob, SendPacket, ReceiveFrame, SubmitJob, SeekTo, FinishJob, DropQueue;
      ghost var before := Abs();
      copied := *;
      if copied { PublishResult(Frame(job.generation, job.number, pts)); }
      pc := Draining(job, retry);
      Record(before, Publish(copied));
    }

    /** The part of one loop round before the packet is sent. */
    method BeginHeldJob(job: Job) returns (decoding: bool)
      requires Valid() && pc == Popped(job) && Rested()
      modifies `codec, `flushed, `pendingFlush, `freed, `pc, `trace, `log
      ensures Rested()
      ensures Valid() && Takes(old(Abs()), Begin, Abs()) && trace == old(trace) + [Begin]
      ensures decoding <==> old(codec).Codec?
      ensures pendingFlush <==> old(pendingFlush) && !decoding
      ensures decoding ==>
                if old(pendingFlush) then codec == Codec({}, 0) && !flushed
                else codec == old(codec) && flushed == old(flushed)
      ensures if decoding then pc == Sending(job) && codec.Codec?
              else pc == if job.eos then EndingStream(job) else Finishing(job)
    {
      hide Reaches, Step, Enabled, Takes, BeginJob, SendPacket, ReceiveFrame, L.Quiet;
      ghost var before := Abs();
      PrivateTakes(before);
      decoding := BeginPrivately(job);
      Record(before, Begin);
    }

    method BeginPrivately(job: Job) returns (decoding: bool)
      requires pc == Popped(job) && Rested()
      modifies `codec, `flushed, `pendingFlush, `freed, `pc, `log
      ensures Rested() && Mine() == BeginJob(old(Mine()), old(pendingFlush))
      ensures decoding <==> old(codec).Codec?
      ensures pendingFlush <==> old(pendingFlush) && !decoding
      ensures decoding ==>
                if old(pendingFlush) then codec == Codec({}, 0) && !flushed
                else codec == old(codec) && flushed == old(flushed)
      ensures pc == if decoding then Sending(job) else if job.eos then EndingStream(job) else Finishing(job)
    {
      hide L.Quiet;
      decoding := codec.Codec?;
      if !decoding {
        DropWithoutCodec(job);
        pc := if job.eos then EndingStream(job) else Finishing(job);
      } else {
        var was := pendingFlush;
        pendingFlush := false;
        if was { FlushCodec(); }
        pc := Sending(job);
      }
    }

    method DropWithoutCodec(job: Job)
      requires Rested() && codec.NoCodec?
      modifies `freed, `log
      ensures Rested() && freed == old(freed) + if job.eos then [] else [job.number]
    {
      hide L.Quiet;
      L.LetGoWithoutCodec(codec0, hw0, log, Fields(), job);
      FreePacket(job);
    }

    method FlushCodec()
      requires Rested() && codec.Codec?
      modifies `codec, `flushed, `log
      ensures Rested() && codec == Codec({}, 0) && !flushed
    {
      hide L.Quiet;
      L.BuffersFlushed(codec0, hw0, log, Fields());
      FlushBuffers();
      flushed := false;
    }

    /** The job is sent, and its frames decoded. */
    method DecodeHeldJob(job: Job)
      requires Valid() && pc == Sending(job) && codec.Codec? && Rested()
      modifies this
      ensures Valid() && old(trace) <= trace && pc == Finishing(job) && Rested()
    {
      hide *;
      var sent := SendHeldPacket(job);
      if sent { DrainAfter(job); }
    }

    method DrainAfter(job: Job)
      requires Valid() && pc == Draining(job, false) && codec.Codec? && Rested()
      modifies this
      ensures Valid() && old(trace) <= trace && pc == Finishing(job) && Rested()
    {
      hide Reaches, L.Quiet, L.Drains;
      L.QuietDrains(codec0, hw0, log, Fields(), None);
      DecodeAvailableFrames(job, false, None);
    }

    /** One round of `run`. */
    method RunRound() returns (running: bool)
      requires Valid() && pc.Waiting? && (stop || queue != []) && Rested()
      modifies this
      ensures Valid() && old(trace) <= trace && Rested()
      ensures if running then pc.Waiting? else pc.Exited? && stop
    {
      hide *;
      var next := WaitForJob();
      running := next.Some?;
      if running { HandleJob(next.value); }
    }

    /** From the pop to the next wait. */
    method HandleJob(job: Job)
      requires Valid() && pc == Popped(job) && Rested()
      modifies this
      ensures Valid() && old(trace) <= trace && pc.Waiting? && Rested()
    {
      hide *;
      RenderThread();
      WorkOff(job);
      RenderThread();
      FinishedJob(job);
    }

    method WorkOff(job: Job)
      requires Valid() && pc == Popped(job) && Rested()
      modifies this
      ensures Valid() && old(trace) <= trace && pc == Finishing(job) && Rested()
    {
      hide *;
      var decoding := BeginHeldJob(job);
      RenderThread();
      if decoding {
        DecodeHeldJob(job);
      } else if job.eos {
        PublishEofResult(job);
      }
    }

    /** The worker thread, for as many rounds as it is given; it leaves only on stop. What is proved of
        every run of the protocol holds of the object afterwards. */
    method Run(rounds: nat)
      requires Valid() && pc.Waiting? && Rested()
      modifies this
      ensures Valid() && old(trace) <= trace && Rested()
      ensures L.FailuresAreRetried(hw0, log) && L.LetGoWhenSettled(codec0, hw0, log) && freed == L.Freed(log)
      ensures L.ErrorsReopen(hw0, log) && L.ReopenedOnce(hw0, log)
      ensures codec.Codec? ==> forall k: nat, n :: L.InsideSince(log, k, n) ==> n in codec.fed
      ensures pc.Waiting? || (pc.Exited? && stop)
      ensures PacketInv(Abs()) && ResultInv(Abs()) && OrderInv(Abs())
      ensures !h.destroyed ==> outstanding == |queue| + if pc.Holds() then 1 else 0
    {
      RunRounds(rounds);
      hide *;
      InvHolds();
      CodecIsServedRight();
    }

    method RunRounds(rounds: nat)
      requires Valid() && pc.Waiting? && Rested()
      modifies this
      ensures Valid() && old(trace) <= trace && Rested() && (pc.Waiting? || (pc.Exited? && stop))
    {
      hide *;
      var left := rounds;
      var running := true;
      while running && left > 0
        invariant Valid() && old(trace) <= trace && Rested()
        invariant if running then pc.Waiting? else pc.Exited? && stop
        decreases left
      {
        RenderThread();
        if stop || queue != [] { running := RunRound(); }
        left := left - 1;
      }
    }

    lemma InvHolds()
      requires Valid()
      ensures PacketInv(Abs()) && ResultInv(Abs()) && OrderInv(Abs())
      ensures !h.destroyed ==> outstanding == |queue| + if pc.Holds() then 1 else 0
    {
      InitialInv(codec0, hw0);
      EveryRunKeepsInv(Initial(codec0, hw0), trace, Abs());
      hide PacketInv, ResultInv, OrderInv, CodecInv, Reaches;
    }

    /** What the log of a worker between two jobs obeys. */
    lemma CodecIsServedRight()
      requires Rested()
      ensures L.FailuresAreRetried(hw0, log) && L.LetGoWhenSettled(codec0, hw0, log) && freed == L.Freed(log)
      ensures L.ErrorsReopen(hw0, log) && L.ReopenedOnce(hw0, log)
      ensures codec.Codec? ==> forall k: nat, n :: L.InsideSince(log, k, n) ==> n in codec.fed
    {
      hide L.Lawful, L.WatchOf, L.Freed, L.FailuresAreRetried, L.ErrorsReopen, L.ReopenedOnce, L.LetGoWhenSettled, L.InsideSince;
      L.HardErrorsReopen(codec0, hw0, log);
      L.ReopensAtMostOnce(codec0, hw0, log);
      L.HardwareFailuresAreRetried(codec0, hw0, log);
      L.LetGoIsSettled(codec0, hw0, log);
      forall k: nat, n | codec.Codec? && L.InsideSince(log, k, n)
        ensures n in codec.fed
      {
        L.FedIsAccepted(codec0, hw0, log, n);
      }
    }
  }
}
