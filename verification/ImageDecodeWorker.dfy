/** The image decode worker itself. The worker thread lets go of the lock while it fetches and decodes, and
    the render thread may run there (`RenderThread`). Every execution is a run of the protocol: `Valid`
    says that `trace` leads from the initial state to the present one. */
module ImageDecodeWorker {
  import opened Common
  import opened ImageDecodeProtocol

  /** The bytes fetched for a job, or none. */
  datatype Fetch = Fetch(job: Job, bytes: Option<seq<byte>>)

  /** A result is the decoder's verdict on its own job's bytes: those handed in, or those a fetch for that very job
      gave; when that gave none, there is no image. */
  predicate FromOwnBytes(decode: Decoder, fetches: seq<Fetch>, r: Result) {
    match r.job.source
    case Encoded(bytes) => r.image == decode(bytes)
    case ToFetch =>
      exists k :: 0 <= k < |fetches| && fetches[k].job == r.job &&
        r.image == if fetches[k].bytes.Some? then decode(fetches[k].bytes.value) else None
  }

  predicate AllFromOwnBytes(decode: Decoder, fetches: seq<Fetch>, results: seq<Result>) {
    forall i :: 0 <= i < |results| ==> FromOwnBytes(decode, fetches, results[i])
  }

  lemma OneMoreFetch(decode: Decoder, fetches: seq<Fetch>, f: Fetch, results: seq<Result>)
    requires AllFromOwnBytes(decode, fetches, results)
    ensures AllFromOwnBytes(decode, fetches + [f], results)
  {
    forall i | 0 <= i < |results|
      ensures FromOwnBytes(decode, fetches + [f], results[i])
    {
      var r := results[i];
      assert FromOwnBytes(decode, fetches, r);
      if r.job.source.ToFetch? {
        var k :| 0 <= k < |fetches| && fetches[k].job == r.job &&
          r.image == if fetches[k].bytes.Some? then decode(fetches[k].bytes.value) else None;
        assert (fetches + [f])[k] == fetches[k];
      }
    }
  }

  lemma OneMoreResult(decode: Decoder, fetches: seq<Fetch>, results: seq<Result>, r: Result)
    requires AllFromOwnBytes(decode, fetches, results) && FromOwnBytes(decode, fetches, r)
    ensures AllFromOwnBytes(decode, fetches, results + [r])
  {
    hide FromOwnBytes;
  }

  class Worker {
    const decode: Decoder
    var queue: seq<Job>
    var done: seq<Result>
    var inflight: set<nat>
    var stop: bool
    var serial: nat              // names the next accepted job
    ghost var pc: Pc
    ghost var h: History
    ghost var trace: seq<Event>
    ghost var fetches: seq<Fetch>    // every fetch and what it gave, oldest first

    ghost function Abs(): State reads this { State(Shared(queue, done, inflight, stop, pc), h) }

    ghost predicate Valid() reads this {
      serial == |h.accepted| && Reaches(decode, INITIAL, trace, Abs())
    }

    /** Every result, waiting or taken, is of its own job's bytes. */
    ghost predicate Honest() reads `done, `h, `fetches {
      AllFromOwnBytes(decode, fetches, done) && AllFromOwnBytes(decode, fetches, h.taken)
    }

    constructor (decode: Decoder)
      ensures Valid() && Abs() == INITIAL && this.decode == decode && Honest()
    {
      this.decode := decode;
      fetches := [];
      queue, done, inflight, stop, serial := [], [], {}, false, 0;
      pc, h, trace := Waiting, History([], [], []), [];
    }

    /** The fields have just made step `e` from `before`. */
    ghost method Record(before: State, e: Event)
      requires Reaches(decode, INITIAL, trace, before)
      requires Enabled(before, e) && Abs() == Step(decode, before, e) && serial == |h.accepted|
      modifies `trace
      ensures Valid() && trace == old(trace) + [e]
    {
      ReachesSnoc(decode, INITIAL, trace, before, e);
      trace := trace + [e];
    }

    // ---- Render thread ------------------------------------------------------------------------

    /** Bytes to decode, or bytes to fetch first; nothing when the key is already in flight. */
    method Submit(key: nat, source: Source)
      requires Valid() && !stop
      modifies `queue, `inflight, `serial, `h, `trace
      ensures Valid() && Abs() == Step(decode, old(Abs()), Event.Submit(key, source)) && old(trace) <= trace
      ensures h.taken == old(h).taken
    {
      hide Reaches;
      ghost var before := Abs();
      if key !in inflight {
        inflight := inflight + {key};
        queue := queue + [Job(serial, key, source)];
        h := h.(accepted := h.accepted + [Job(serial, key, source)]);
        serial := serial + 1;
      }
      Record(before, Event.Submit(key, source));
    }

    method Pending(key: nat) returns (p: bool)
      requires Valid()
      ensures p <==> KeyCount(Present(Abs()), key) == 1
    {
      InitialInv(decode);
      EveryRunKeepsInv(decode, INITIAL, trace, Abs());
      hide Reaches, Present, KeyCount, JobInv, ResultInv;
      p := key in inflight;
    }

    method TakeResult() returns (r: Option<Result>)
      requires Valid() && !stop
      modifies `done, `inflight, `h, `trace
      ensures Valid() && old(trace) <= trace
      ensures r == if old(done) == [] then None else Some(old(done)[|old(done)| - 1])
      ensures Abs() == if old(done) == [] then old(Abs()) else Step(decode, old(Abs()), Take)
      ensures old(Honest()) ==> Honest() && (r.Some? ==> FromOwnBytes(decode, fetches, r.value))
    {
      hide Reaches, FromOwnBytes;
      if done == [] { return None; }
      ghost var before := Abs();
      var last := done[|done| - 1];
      r := Some(last);
      h := h.(taken := h.taken + [last]);
      done := done[..|done| - 1];
      inflight := inflight - {last.job.key};
      Record(before, Take);
    }

    /** Forgets what is still queued under other keys; what is being decoded or done stays. */
    method Retain(keep: set<nat>)
      requires Valid() && !stop
      modifies `queue, `inflight, `h, `trace
      ensures Valid() && Abs() == Step(decode, old(Abs()), Event.Retain(keep)) && old(trace) <= trace
      ensures h.taken == old(h).taken
    {
      hide Reaches, Kept, Forgotten, KeySet;
      ghost var before := Abs();
      ghost var forgotten;
      var kept, gone;
      kept, gone, forgotten := SplitQueue(keep);
      queue := kept;
      inflight := inflight - gone;
      h := h.(dropped := h.dropped + forgotten);
      Record(before, Event.Retain(keep));
    }

    /** std::erase_if over the queue: what stays, and the keys that go. */
    method SplitQueue(keep: set<nat>) returns (kept: seq<Job>, gone: set<nat>, ghost forgotten: seq<Job>)
      ensures kept == Kept(queue, keep) && forgotten == Forgotten(queue, keep) && gone == KeySet(forgotten)
    {
      kept, gone, forgotten := [], {}, [];
      assert queue[..0] == [];
      for i := 0 to |queue|
        invariant kept == Kept(queue[..i], keep) && forgotten == Forgotten(queue[..i], keep)
        invariant gone == KeySet(forgotten)
      {
        hide Kept, Forgotten, KeySet;
        RetainStep(queue[..i], queue[i], keep);
        assert queue[..i + 1] == queue[..i] + [queue[i]];
        if queue[i].key in keep {
          kept := kept + [queue[i]];
        } else {
          KeySetSnoc(forgotten, queue[i]);
          gone := gone + {queue[i].key};
          forgotten := forgotten + [queue[i]];
        }
      }
      assert queue[..|queue|] == queue;
    }

    static lemma KeySetSnoc(jobs: seq<Job>, job: Job)
      ensures KeySet(jobs + [job]) == KeySet(jobs) + {job.key}
    {
      var more := jobs + [job];
      assert more[|jobs|].key == job.key;
      forall key | key in KeySet(jobs)
        ensures key in KeySet(more)
      {
        var i :| 0 <= i < |jobs| && jobs[i].key == key;
        assert more[i].key == key;
      }
    }

    method RequestStop()
      requires Valid() && !stop
      modifies `stop, `trace
      ensures Valid() && Abs() == Step(decode, old(Abs()), Stop) && old(trace) <= trace
    {
      hide Reaches;
      ghost var before := Abs();
      stop := true;
      Record(before, Stop);
    }

    /** Any number of the render thread's calls. */
    method RenderThread()
      requires Valid()
      modifies `queue, `done, `inflight, `stop, `serial, `h, `trace
      ensures Valid() && old(trace) <= trace && (old(stop) ==> stop && Abs() == old(Abs()) && trace == old(trace))
      ensures old(Honest()) ==> Honest()
    {
      hide Reaches, Step, AllFromOwnBytes;
      var calls: nat := *;
      while calls > 0 && !stop
        invariant Valid() && old(trace) <= trace
        invariant old(stop) ==> stop && Abs() == old(Abs()) && trace == old(trace)
        invariant old(Honest()) ==> Honest()
      {
        var call: nat := *;
        if call == 0 {
          var key, bytes := *, *;
          Submit(key, Encoded(bytes));
        } else if call == 1 {
          var key := *;
          Submit(key, ToFetch);
        } else if call == 2 {
          var _ := TakeResult();
        } else if call == 3 {
          var keep := *;
          Retain(keep);
        } else {
          RequestStop();
        }
        calls := calls - 1;
      }
    }

    // ---- Worker thread ------------------------------------------------------------------------

    /** The next job; none once stopped and drained. */
    method WaitForJob() returns (job: Option<Job>)
      requires Valid() && pc.Waiting? && (stop || queue != [])
      modifies `queue, `pc, `trace
      ensures Valid() && old(trace) <= trace
      ensures job == if old(queue) == [] then None else Some(old(queue)[0])
      ensures if job.None? then pc == Exited && queue == [] else pc == Working(job.value)
    {
      hide Reaches;
      ghost var before := Abs();
      if stop && queue == [] {
        job, pc := None, Exited;
        Record(before, Exit);
        return;
      }
      job, pc := Some(queue[0]), Working(queue[0]);
      queue := queue[1..];
      Record(before, Pop);
    }

    /** Puts the job's result among the finished ones. */
    method PublishResult(job: Job, image: Option<Image>, ghost fetched: Option<seq<byte>>)
      requires Valid() && pc == Working(job) && image == ImageOf(decode, job, fetched)
      requires job.source.ToFetch? ==> fetches != [] && fetches[|fetches| - 1] == Fetch(job, fetched)
      modifies `done, `pc, `trace
      ensures Valid() && pc == Waiting && done == old(done) + [Result(job, image)]
      ensures old(Honest()) ==> Honest()
      ensures Abs() == Step(decode, old(Abs()), Event.Publish(fetched)) && trace == old(trace) + [Event.Publish(fetched)]
    {
      hide Reaches;
      ghost var before := Abs();
      if Honest() { OneMoreResult(decode, fetches, done, Result(job, image)); }
      done := done + [Result(job, image)];
      pc := Waiting;
      Record(before, Event.Publish(fetched));
    }

    /** The fetch callback, outside the lock. */
    method FetchBytes(job: Job) returns (bytes: Option<seq<byte>>)
      modifies `fetches
      ensures fetches == old(fetches) + [Fetch(job, bytes)] && (old(Honest()) ==> Honest())
    {
      bytes := *;
      if Honest() {
        OneMoreFetch(decode, fetches, Fetch(job, bytes), done);
        OneMoreFetch(decode, fetches, Fetch(job, bytes), h.taken);
      }
      fetches := fetches + [Fetch(job, bytes)];
    }

    /** The bytes to decode; a failed fetch reports its empty result at once. */
    method RunFetchStage(job: Job) returns (encoded: Option<seq<byte>>)
      requires Valid() && pc == Working(job) && Honest()
      modifies this
      ensures Valid() && old(trace) <= trace && Honest()
      ensures job.source.ToFetch? ==> fetches != [] && fetches[|fetches| - 1] == Fetch(job, encoded)
      ensures if encoded.None? then pc == Waiting else pc == Working(job)
      ensures job.source.Encoded? ==> encoded == Some(job.source.bytes)
      ensures encoded.None? ==>
                && done != [] && done[|done| - 1] == Result(job, None)
                && trace != [] && trace[|trace| - 1] == Event.Publish(None)
    {
      if job.source.Encoded? { return Some(job.source.bytes); }
      RenderThread();
      encoded := FetchBytes(job);
      if encoded.None? { PublishResult(job, None, None); }
    }

    method RunRound() returns (running: bool)
      requires Valid() && pc.Waiting? && (stop || queue != []) && Honest()
      modifies this
      ensures Valid() && old(trace) <= trace && Honest()
      ensures if running then pc.Waiting? else pc.Exited? && stop && queue == []
    {
      hide Reaches, Step;
      var next := WaitForJob();
      if next.None? { return false; }
      running := true;
      var job := next.value;
      RenderThread();
      var encoded := RunFetchStage(job);
      if encoded.None? { return; }
      RenderThread();
      PublishResult(job, decode(encoded.value), encoded);
    }

    /** The worker thread, for as many rounds as it is given; it leaves only when stopped and drained.
        What is proved of every run of the protocol holds of the object afterwards. */
    method Run(rounds: nat)
      requires Valid() && pc.Waiting? && Honest()
      modifies this
      ensures Valid() && old(trace) <= trace && Inv(decode, Abs()) && Honest()
      ensures pc.Waiting? || (pc.Exited? && stop && queue == [])
    {
      var left := rounds;
      var running := true;
      while running && left > 0
        invariant Valid() && old(trace) <= trace && Honest()
        invariant if running then pc.Waiting? else pc.Exited? && stop && queue == []
        decreases left
      {
        RenderThread();
        if stop || queue != [] { running := RunRound(); }
        left := left - 1;
      }
      InitialInv(decode);
      EveryRunKeepsInv(decode, INITIAL, trace, Abs());
    }
  }
}
