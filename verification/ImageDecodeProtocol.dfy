/** The image decode worker as a two-thread protocol: each lock-protected section is one step, and the
    render thread's may come between any two of the worker's. */
module ImageDecodeProtocol {
  import opened Common

  type Image = nat
  type Decoder = seq<byte> -> Option<Image>

  /** Bytes handed in, or bytes the worker is to fetch. */
  datatype Source = Encoded(bytes: seq<byte>) | ToFetch

  /** `number` counts accepted submissions, so it names the job. */
  datatype Job = Job(number: nat, key: nat, source: Source)

  datatype Result = Result(job: Job, image: Option<Image>)

  datatype Pc = Waiting | Working(job: Job) | Exited

  /** What the mutex guards, and where the worker stands. */
  datatype Shared = Shared(queue: seq<Job>, done: seq<Result>, inflight: set<nat>, stop: bool, pc: Pc)

  datatype History = History(accepted: seq<Job>, dropped: seq<Job>, taken: seq<Result>)

  datatype State = State(sh: Shared, h: History)

  datatype Event =
    // render thread
    | Submit(key: nat, source: Source)
    | Retain(keep: set<nat>)
    | Take
    | Stop
    // worker thread
    | Pop
    | Publish(fetched: Option<seq<byte>>)
    | Exit

  const INITIAL: State := State(Shared([], [], {}, false, Waiting), History([], [], []))

  // ---- The steps --------------------------------------------------------------------------------

  /** What a job comes to: the decoder's verdict on its bytes, or nothing when they could not be fetched. */
  function ImageOf(decode: Decoder, job: Job, fetched: Option<seq<byte>>): Option<Image> {
    if job.source.Encoded? then decode(job.source.bytes)
    else if fetched.Some? then decode(fetched.value)
    else None
  }

  function Kept(queue: seq<Job>, keep: set<nat>): seq<Job> {
    if queue == [] then []
    else Kept(queue[..|queue| - 1], keep) + if queue[|queue| - 1].key in keep then [queue[|queue| - 1]] else []
  }

  function Forgotten(queue: seq<Job>, keep: set<nat>): seq<Job> {
    if queue == [] then []
    else Forgotten(queue[..|queue| - 1], keep) + if queue[|queue| - 1].key in keep then [] else [queue[|queue| - 1]]
  }

  function KeySet(jobs: seq<Job>): set<nat> { set i | 0 <= i < |jobs| :: jobs[i].key }

  predicate Enabled(s: State, e: Event) {
    match e
    case Submit(_, _) => !s.sh.stop
    case Retain(_) => !s.sh.stop
    case Take => !s.sh.stop && s.sh.done != []
    case Stop => !s.sh.stop
    case Pop => s.sh.pc.Waiting? && s.sh.queue != []
    case Publish(_) => s.sh.pc.Working?
    case Exit => s.sh.pc.Waiting? && s.sh.stop && s.sh.queue == []
  }

  function SubmitJob(s: State, key: nat, source: Source): State {
    if key in s.sh.inflight then s
    else
      var job := Job(|s.h.accepted|, key, source);
      State(s.sh.(queue := s.sh.queue + [job], inflight := s.sh.inflight + {key}),
            s.h.(accepted := s.h.accepted + [job]))
  }

  function RetainKeys(s: State, keep: set<nat>): State {
    var gone := Forgotten(s.sh.queue, keep);
    State(s.sh.(queue := Kept(s.sh.queue, keep), inflight := s.sh.inflight - KeySet(gone)),
          s.h.(dropped := s.h.dropped + gone))
  }

  function TakeLast(s: State): State
    requires s.sh.done != []
  {
    var n := |s.sh.done| - 1;
    State(s.sh.(done := s.sh.done[..n], inflight := s.sh.inflight - {s.sh.done[n].job.key}),
          s.h.(taken := s.h.taken + [s.sh.done[n]]))
  }

  function Step(decode: Decoder, s: State, e: Event): State
    requires Enabled(s, e)
  {
    match e
    case Submit(key, source) => SubmitJob(s, key, source)
    case Retain(keep) => RetainKeys(s, keep)
    case Take => TakeLast(s)
    case Stop => s.(sh := s.sh.(stop := true))
    case Pop => s.(sh := s.sh.(pc := Working(s.sh.queue[0]), queue := s.sh.queue[1..]))
    case Publish(fetched) =>
      var job := s.sh.pc.job;
      s.(sh := s.sh.(pc := Waiting, done := s.sh.done + [Result(job, ImageOf(decode, job, fetched))]))
    case Exit => s.(sh := s.sh.(pc := Exited))
  }

  /** `t` is reached from `s` by the steps `events`, in any interleaving of the two threads. */
  ghost predicate Reaches(decode: Decoder, s: State, events: seq<Event>, t: State)
    decreases |events|
  {
    if events == [] then s == t
    else Enabled(s, events[0]) && Reaches(decode, Step(decode, s, events[0]), events[1..], t)
  }

  lemma {:induction false} ReachesSnoc(decode: Decoder, s: State, events: seq<Event>, t: State, e: Event)
    requires Reaches(decode, s, events, t) && Enabled(t, e)
    ensures Reaches(decode, s, events + [e], Step(decode, t, e))
    decreases |events|
  {
    hide Step, Enabled;
    if events == [] {
      assert ([] + [e])[1..] == [];
      assert Reaches(decode, Step(decode, t, e), [], Step(decode, t, e));
    } else {
      ReachesSnoc(decode, Step(decode, s, events[0]), events[1..], t, e);
      assert (events + [e])[1..] == events[1..] + [e];
    }
  }

  // ---- The invariant ----------------------------------------------------------------------------

  function Held(pc: Pc): seq<Job> { if pc.Working? then [pc.job] else [] }

  function Jobs(results: seq<Result>): (jobs: seq<Job>)
    ensures |jobs| == |results| && forall i :: 0 <= i < |jobs| ==> jobs[i] == results[i].job
  {
    seq(|results|, i requires 0 <= i < |results| => results[i].job)
  }

  /** The jobs queued, being decoded, and done. */
  function Present(s: State): seq<Job> { s.sh.queue + Held(s.sh.pc) + Jobs(s.sh.done) }

  /** How many of `jobs` have this key. */
  function KeyCount(jobs: seq<Job>, key: nat): nat {
    if jobs == [] then 0 else KeyCount(jobs[..|jobs| - 1], key) + if jobs[|jobs| - 1].key == key then 1 else 0
  }

  /** How often `job` itself is among them. */
  function Times(jobs: seq<Job>, job: Job): nat { multiset(jobs)[job] }

  /** The keys present are pairwise distinct, and are those in flight. */
  ghost predicate KeyInv(s: State) {
    forall key: nat :: KeyCount(Present(s), key) == if key in s.sh.inflight then 1 else 0
  }

  /** Every accepted job is present, dropped or taken, and only once. */
  ghost predicate JobInv(s: State) {
    && (forall job ::
          Times(s.h.accepted, job) == Times(Present(s), job) + Times(s.h.dropped, job) + Times(Jobs(s.h.taken), job))
    && forall i :: 0 <= i < |s.h.accepted| ==> s.h.accepted[i].number == i
  }

  /** A result is the decoder's verdict on its own job's bytes. */
  ghost predicate ResultInv(decode: Decoder, s: State) {
    && (forall i :: 0 <= i < |s.sh.done| ==> Truthful(decode, s.sh.done[i]))
    && (forall i :: 0 <= i < |s.h.taken| ==> Truthful(decode, s.h.taken[i]))
  }

  predicate Truthful(decode: Decoder, r: Result) {
    r.job.source.Encoded? ==> r.image == decode(r.job.source.bytes)
  }

  ghost predicate Inv(decode: Decoder, s: State) { KeyInv(s) && JobInv(s) && ResultInv(decode, s) }

  lemma {:induction false} CountConcat(a: seq<Job>, b: seq<Job>, key: nat)
    ensures KeyCount(a + b, key) == KeyCount(a, key) + KeyCount(b, key)
    decreases |b|
  {
    if b == [] {
      assert a + b == a;
    } else {
      CountConcat(a, b[..|b| - 1], key);
      assert (a + b)[..|a + b| - 1] == a + b[..|b| - 1];
    }
  }

  lemma CountOne(job: Job, key: nat)
    ensures KeyCount([job], key) == if job.key == key then 1 else 0
  {
    assert [job][..0] == [];
  }

  /** The parts a state's jobs are in, counted by key and as a multiset. */
  lemma PresentParts(s: State)
    ensures forall key :: KeyCount(Present(s), key) ==
              KeyCount(s.sh.queue, key) + KeyCount(Held(s.sh.pc), key) + KeyCount(Jobs(s.sh.done), key)
    ensures forall job :: Times(Present(s), job) ==
              Times(s.sh.queue, job) + Times(Held(s.sh.pc), job) + Times(Jobs(s.sh.done), job)
  {
    hide KeyCount, Jobs, Held;
    forall key: nat
      ensures KeyCount(Present(s), key) ==
              KeyCount(s.sh.queue, key) + KeyCount(Held(s.sh.pc), key) + KeyCount(Jobs(s.sh.done), key)
    {
      CountConcat(s.sh.queue + Held(s.sh.pc), Jobs(s.sh.done), key);
      CountConcat(s.sh.queue, Held(s.sh.pc), key);
    }
  }

  /** One job appended, or taken from the front. */
  lemma CountSnoc(jobs: seq<Job>, job: Job)
    ensures forall key :: KeyCount(jobs + [job], key) == KeyCount(jobs, key) + if job.key == key then 1 else 0
    ensures forall key :: KeyCount([job] + jobs, key) == KeyCount(jobs, key) + if job.key == key then 1 else 0
    ensures forall j :: Times(jobs + [job], j) == Times(jobs, j) + (if job == j then 1 else 0) == Times([job] + jobs, j)
  {
    forall key: nat
      ensures KeyCount(jobs + [job], key) == KeyCount(jobs, key) + if job.key == key then 1 else 0
      ensures KeyCount([job] + jobs, key) == KeyCount(jobs, key) + if job.key == key then 1 else 0
    {
      CountConcat(jobs, [job], key);
      CountConcat([job], jobs, key);
      CountOne(job, key);
    }
  }

  lemma CountHeld(pc: Pc)
    ensures forall key :: KeyCount(Held(pc), key) == if pc.Working? && pc.job.key == key then 1 else 0
    ensures forall j :: Times(Held(pc), j) == if pc.Working? && pc.job == j then 1 else 0
  {
    forall key: nat
      ensures KeyCount(Held(pc), key) == if pc.Working? && pc.job.key == key then 1 else 0
    {
      if pc.Working? { CountOne(pc.job, key); }
    }
  }

  lemma JobsSnoc(results: seq<Result>, r: Result)
    ensures Jobs(results + [r]) == Jobs(results) + [r.job]
  {}

  ghost predicate SplitsByKey(queue: seq<Job>, keep: set<nat>, key: nat, job: Job) {
    && KeyCount(Kept(queue, keep), key) == (if key in keep then KeyCount(queue, key) else 0)
    && KeyCount(Forgotten(queue, keep), key) == (if key in keep then 0 else KeyCount(queue, key))
    && Times(queue, job) == Times(Kept(queue, keep), job) + Times(Forgotten(queue, keep), job)
  }

  lemma SplitsOneMore(first: seq<Job>, last: Job, keep: set<nat>, key: nat, job: Job)
    requires SplitsByKey(first, keep, key, job)
    ensures SplitsByKey(first + [last], keep, key, job)
  {
    hide KeyCount, Times, Kept, Forgotten;
    RetainStep(first, last, keep);
    CountSnoc(first, last);
    CountSnoc(Kept(first, keep), last);
    CountSnoc(Forgotten(first, keep), last);
  }

  /** What `retain` keeps and what it forgets make up the queue, split by key. */
  lemma {:induction false} RetainSplits(queue: seq<Job>, keep: set<nat>, key: nat, job: Job)
    ensures SplitsByKey(queue, keep, key, job)
    decreases |queue|
  {
    if queue != [] {
      hide *;
      RetainSplits(queue[..|queue| - 1], keep, key, job);
      SplitsOneMore(queue[..|queue| - 1], queue[|queue| - 1], keep, key, job);
      LastApart(queue);
    }
  }

  lemma RetainStep(first: seq<Job>, last: Job, keep: set<nat>)
    ensures Kept(first + [last], keep) == if last.key in keep then Kept(first, keep) + [last] else Kept(first, keep)
    ensures Forgotten(first + [last], keep) ==
            if last.key in keep then Forgotten(first, keep) else Forgotten(first, keep) + [last]
  {
    assert (first + [last])[..|first|] == first;
  }

  lemma LastApart<T>(s: seq<T>)
    requires s != []
    ensures s == s[..|s| - 1] + [s[|s| - 1]]
  {}

  lemma {:induction false} CountsKeys(jobs: seq<Job>, key: nat)
    ensures key in KeySet(jobs) <==> KeyCount(jobs, key) > 0
    decreases |jobs|
  {
    if jobs != [] {
      var n := |jobs| - 1;
      CountsKeys(jobs[..n], key);
      assert forall i :: 0 <= i < n ==> jobs[..n][i] == jobs[i];
      assert key in KeySet(jobs) <==> key in KeySet(jobs[..n]) || jobs[n].key == key by {
        if key in KeySet(jobs[..n]) {
          var i :| 0 <= i < n && jobs[..n][i].key == key;
          assert jobs[i].key == key;
        }
        assert jobs[n].key in KeySet(jobs);
      }
    }
  }

  // ---- Every step keeps the keys ------------------------------------------------------------------

  lemma SubmitKeepsInv(s: State, key: nat, source: Source)
    requires KeyInv(s) && JobInv(s)
    ensures KeyInv(SubmitJob(s, key, source)) && JobInv(SubmitJob(s, key, source))
  {
    if key !in s.sh.inflight {
      var job := Job(|s.h.accepted|, key, source);
      QueuedKeepsKeys(s, SubmitJob(s, key, source), job);
      QueuedKeepsJobs(s, SubmitJob(s, key, source), job);
    }
    hide KeyInv, JobInv;
  }

  lemma QueuedKeepsKeys(s: State, t: State, job: Job)
    requires KeyInv(s) && job.key !in s.sh.inflight
    requires t.sh == s.sh.(queue := s.sh.queue + [job], inflight := s.sh.inflight + {job.key})
    ensures KeyInv(t)
  {
    PresentParts(s);
    PresentParts(t);
    CountSnoc(s.sh.queue, job);
    hide Present, KeyCount, Held, Jobs, Times;
  }

  lemma QueuedKeepsJobs(s: State, t: State, job: Job)
    requires JobInv(s) && job.number == |s.h.accepted|
    requires t.sh == s.sh.(queue := s.sh.queue + [job], inflight := t.sh.inflight)
    requires t.h == s.h.(accepted := s.h.accepted + [job])
    ensures JobInv(t)
  {
    PresentParts(s);
    PresentParts(t);
    CountSnoc(s.sh.queue, job);
    CountSnoc(s.h.accepted, job);
    hide Present, KeyCount, Held, Jobs, Times;
  }

  lemma RetainKeepsInv(s: State, keep: set<nat>)
    requires KeyInv(s) && JobInv(s)
    ensures KeyInv(RetainKeys(s, keep)) && JobInv(RetainKeys(s, keep))
  {
    var t, gone := RetainKeys(s, keep), Forgotten(s.sh.queue, keep);
    PresentParts(s);
    PresentParts(t);
    forall key: nat
      ensures KeyCount(Present(t), key) == if key in t.sh.inflight then 1 else 0
    {
      RetainSplits(s.sh.queue, keep, key, Job(0, 0, ToFetch));
      CountsKeys(gone, key);
      hide Present, KeyCount, Held, Jobs, KeySet, Kept, Forgotten, Times;
      assert KeyCount(Present(s), key) == if key in s.sh.inflight then 1 else 0;
    }
    forall job
      ensures Times(t.h.accepted, job) == Times(Present(t), job) + Times(t.h.dropped, job) + Times(Jobs(t.h.taken), job)
    {
      RetainSplits(s.sh.queue, keep, 0, job);
      assert Times(s.h.dropped + gone, job) == Times(s.h.dropped, job) + Times(gone, job);
      hide Present, KeyCount, Held, Jobs, KeySet, Kept, Forgotten, Times;
    }
  }

  lemma TakeKeepsInv(s: State)
    requires KeyInv(s) && JobInv(s) && s.sh.done != []
    ensures KeyInv(TakeLast(s)) && JobInv(TakeLast(s))
  {
    var t := TakeLast(s);
    var r := s.sh.done[|s.sh.done| - 1];
    TakeMovesCounts(s, t, r);
    hide Present, KeyCount, Held, Jobs, Times;
    assert KeyCount(Present(s), r.job.key) <= 1;
  }

  /** Taking moves the last result out. */
  lemma TakeMovesCounts(s: State, t: State, r: Result)
    requires s.sh.done != [] && s.sh.done[|s.sh.done| - 1] == r && t.sh.done == s.sh.done[..|s.sh.done| - 1]
    requires t.sh.queue == s.sh.queue && t.sh.pc == s.sh.pc && t.h.taken == s.h.taken + [r]
    ensures forall key: nat :: KeyCount(Present(s), key) == KeyCount(Present(t), key) + if r.job.key == key then 1 else 0
    ensures forall job :: Times(Present(s), job) == Times(Present(t), job) + if r.job == job then 1 else 0
    ensures forall job :: Times(Jobs(t.h.taken), job) == Times(Jobs(s.h.taken), job) + if r.job == job then 1 else 0
  {
    hide *;
    PresentParts(s);
    PresentParts(t);
    LastApart(s.sh.done);
    JobsSnoc(t.sh.done, r);
    JobsSnoc(s.h.taken, r);
    CountSnoc(Jobs(t.sh.done), r.job);
    CountSnoc(Jobs(s.h.taken), r.job);
  }

  lemma PopKeepsInv(decode: Decoder, s: State)
    requires KeyInv(s) && JobInv(s) && Enabled(s, Pop)
    ensures KeyInv(Step(decode, s, Pop)) && JobInv(Step(decode, s, Pop))
  {
    var t := Step(decode, s, Pop);
    PresentParts(s);
    PresentParts(t);
    assert s.sh.queue == [s.sh.queue[0]] + s.sh.queue[1..];
    CountSnoc(s.sh.queue[1..], s.sh.queue[0]);
    CountHeld(s.sh.pc);
    CountHeld(t.sh.pc);
    hide Present, KeyCount, Held, Jobs, Times;
  }

  lemma PublishKeepsInv(decode: Decoder, s: State, fetched: Option<seq<byte>>)
    requires KeyInv(s) && JobInv(s) && s.sh.pc.Working?
    ensures KeyInv(Step(decode, s, Publish(fetched))) && JobInv(Step(decode, s, Publish(fetched)))
  {
    var t := Step(decode, s, Publish(fetched));
    PublishKeepsCounts(s, t, t.sh.done[|s.sh.done|]);
    hide Present;
    SameCountsKeepInv(s, t);
    hide *;
  }

  /** Publishing moves the held job to the finished ones. */
  lemma PublishKeepsCounts(s: State, t: State, r: Result)
    requires s.sh.pc == Working(r.job) && t.sh.pc == Waiting
    requires t.sh.queue == s.sh.queue && t.sh.done == s.sh.done + [r]
    ensures forall key: nat :: KeyCount(Present(t), key) == KeyCount(Present(s), key)
    ensures forall job :: Times(Present(t), job) == Times(Present(s), job)
  {
    hide *;
    PresentParts(s);
    PresentParts(t);
    JobsSnoc(s.sh.done, r);
    CountSnoc(Jobs(s.sh.done), r.job);
    CountHeld(s.sh.pc);
    CountHeld(t.sh.pc);
  }

  lemma SameCountsKeepInv(s: State, t: State)
    requires KeyInv(s) && JobInv(s) && t.h == s.h && t.sh.inflight == s.sh.inflight
    requires forall key: nat :: KeyCount(Present(t), key) == KeyCount(Present(s), key)
    requires forall job :: Times(Present(t), job) == Times(Present(s), job)
    ensures KeyInv(t) && JobInv(t)
  {
    hide Present, KeyCount, Jobs, Times;
  }

  lemma ResultsStay(decode: Decoder, s: State, e: Event)
    requires ResultInv(decode, s) && Enabled(s, e)
    ensures ResultInv(decode, Step(decode, s, e))
  {}

  lemma StepKeepsInv(decode: Decoder, s: State, e: Event)
    requires Inv(decode, s) && Enabled(s, e)
    ensures Inv(decode, Step(decode, s, e))
  {
    ResultsStay(decode, s, e);
    hide KeyInv, JobInv, ResultInv, SubmitJob, RetainKeys, TakeLast;
    match e
    case Submit(key, source) => SubmitKeepsInv(s, key, source);
    case Retain(keep) => RetainKeepsInv(s, keep);
    case Take => TakeKeepsInv(s);
    case Pop => PopKeepsInv(decode, s);
    case Publish(fetched) => PublishKeepsInv(decode, s, fetched);
    case _ => SameJobsSameInv(s, Step(decode, s, e));
  }

  lemma SameJobsSameInv(s: State, t: State)
    requires t == State(s.sh.(stop := t.sh.stop, pc := t.sh.pc), s.h) && Held(t.sh.pc) == Held(s.sh.pc)
    ensures KeyInv(s) ==> KeyInv(t)
    ensures JobInv(s) ==> JobInv(t)
  {
    assert Present(t) == Present(s);
  }

  lemma {:induction false} EveryRunKeepsInv(decode: Decoder, s: State, events: seq<Event>, t: State)
    requires Inv(decode, s) && Reaches(decode, s, events, t)
    ensures Inv(decode, t)
    decreases |events|
  {
    if events != [] {
      StepKeepsInv(decode, s, events[0]);
      hide Step, Enabled, Inv;
      EveryRunKeepsInv(decode, Step(decode, s, events[0]), events[1..], t);
    }
  }

  lemma InitialInv(decode: Decoder)
    ensures Inv(decode, INITIAL)
  {}

  // ---- What it means ------------------------------------------------------------------------------

  /** Each accepted submission is in exactly one place, once: still queued or being decoded, finished with
      a result, dropped while queued, or its result taken. */
  lemma EachSubmissionOnce(decode: Decoder, events: seq<Event>, s: State, i: nat)
    requires Reaches(decode, INITIAL, events, s) && i < |s.h.accepted|
    ensures var job := s.h.accepted[i];
            Times(s.sh.queue, job) + Times(Held(s.sh.pc), job) + Times(Jobs(s.sh.done), job)
            + Times(s.h.dropped, job) + Times(Jobs(s.h.taken), job) == 1
  {
    InitialInv(decode);
    EveryRunKeepsInv(decode, INITIAL, events, s);
    PresentParts(s);
    OnceEach(s.h.accepted, i);
    hide Present, Held, Jobs, Times, Reaches;
  }

  lemma {:induction false} OnceEach(jobs: seq<Job>, i: nat)
    requires i < |jobs| && forall j :: 0 <= j < |jobs| ==> jobs[j].number == j
    ensures Times(jobs, jobs[i]) == 1
  {
    var a, b := jobs[..i], jobs[i + 1..];
    assert jobs == a + [jobs[i]] + b;
    assert jobs[i] !in a && jobs[i] !in b;
  }

  /** Two jobs present at once never share a key. */
  lemma KeysAreDistinct(decode: Decoder, events: seq<Event>, s: State, i: nat, j: nat)
    requires Reaches(decode, INITIAL, events, s) && i < j < |Present(s)|
    ensures Present(s)[i].key != Present(s)[j].key && Present(s)[i].key in s.sh.inflight
  {
    InitialInv(decode);
    EveryRunKeepsInv(decode, INITIAL, events, s);
    hide Present, Reaches;
    SharedKeyCounts(Present(s), i, j);
    CountsKeys(Present(s), Present(s)[i].key);
  }

  lemma SharedKeyCounts(jobs: seq<Job>, i: nat, j: nat)
    requires i < j < |jobs|
    ensures KeyCount(jobs, jobs[i].key) >= 1
    ensures jobs[i].key == jobs[j].key ==> KeyCount(jobs, jobs[i].key) >= 2
  {
    var key, a, b := jobs[i].key, jobs[..j], jobs[j..];
    CountConcat(a, b, key);
    CountsKeys(a, key);
    CountsKeys(b, b[0].key);
    assert jobs == a + b && a[i].key == key && b[0] == jobs[j];
    hide KeyCount;
  }

  /** The queue is worked off in order: what is held, then what is queued. */
  function Pending(s: State): seq<Job> { Held(s.sh.pc) + s.sh.queue }

  /** After stop the worker still finishes everything pending, in order, before it leaves. */
  lemma {:induction false} StopDrainsTheQueue(decode: Decoder, s: State, events: seq<Event>, t: State)
    requires s.sh.stop && Reaches(decode, s, events, t)
    ensures Jobs(s.sh.done) <= Jobs(t.sh.done) && t.h == s.h && t.sh.stop
    ensures Jobs(t.sh.done) + Pending(t) == Jobs(s.sh.done) + Pending(s)
    ensures t.sh.pc.Exited? && !s.sh.pc.Exited? ==> Jobs(t.sh.done) == Jobs(s.sh.done) + Pending(s)
    decreases |events|
  {
    if events != [] {
      var m := Step(decode, s, events[0]);
      StoppedStep(decode, s, events[0]);
      hide Step, Enabled, Jobs, Pending;
      StopDrainsTheQueue(decode, m, events[1..], t);
    }
  }

  lemma StoppedStep(decode: Decoder, s: State, e: Event)
    requires s.sh.stop && Enabled(s, e)
    ensures var t := Step(decode, s, e);
            && t.sh.stop && t.h == s.h && Jobs(s.sh.done) <= Jobs(t.sh.done)
            && Jobs(t.sh.done) + Pending(t) == Jobs(s.sh.done) + Pending(s)
  {
    var t := Step(decode, s, e);
    if e.Publish? {
      JobsSnoc(s.sh.done, t.sh.done[|s.sh.done|]);
    } else if e.Pop? {
      assert s.sh.queue == [s.sh.queue[0]] + s.sh.queue[1..];
    }
  }
}
