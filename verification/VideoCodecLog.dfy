/** What the decode worker asks of the codec, call by call, and what every such log obeys: a packet is let go
    only when a codec has answered for it, and a hardware failure is answered in software by the same packet. */
module VideoCodecLog {
  import opened Common
  import opened VideoDecodeProtocol

  /** `LetGo`: the worker is done offering the job; a packet is freed here. */
  datatype CodecCall =
    | Offered(job: Job, answer: SendResult)
    | Answered(got: ReceiveResult)
    | Reopened(ok: bool)
    | Flushed
    | LetGo(job: Job)

  // ---- The log, read directly ---------------------------------------------------------------

  /** Before call `i` the context is still the hardware one. */
  predicate HardwareAt(hw: bool, log: seq<CodecCall>, i: nat)
    requires i <= |log|
  {
    hw && forall k :: 0 <= k < i ==> !log[k].Reopened?
  }

  /** The packet or marker offered by call `i` is let go by the one after it. */
  predicate LetGoNext(log: seq<CodecCall>, i: nat)
    requires i < |log| && log[i].Offered?
  {
    i + 1 < |log| && log[i + 1] == LetGo(log[i].job)
  }

  /** A failure on hardware is followed by a reopen; if that succeeds by one more offer of the same job, whose
      answer decides, and if it does not by letting the job go. */
  predicate FailuresAreRetried(hw: bool, log: seq<CodecCall>) {
    forall i :: 0 <= i < |log| && log[i].Offered? && log[i].answer.Failed? && HardwareAt(hw, log, i) ==>
      && i + 2 < |log| && log[i + 1].Reopened?
      && if log[i + 1].ok then log[i + 2].Offered? && log[i + 2].job == log[i].job && LetGoNext(log, i + 2)
         else log[i + 2] == LetGo(log[i].job)
  }

  /** A hard error while frames are fetched from hardware is followed by a reopen too. */
  predicate ErrorsReopen(hw: bool, log: seq<CodecCall>) {
    forall i :: 0 <= i < |log| && log[i] == Answered(HardError) && HardwareAt(hw, log, i) ==>
      i + 1 < |log| && log[i + 1].Reopened?
  }

  /** Only a failure on hardware is answered by a reopen: at most one in the life of a worker. */
  predicate ReopenedOnce(hw: bool, log: seq<CodecCall>) {
    forall i :: 0 <= i < |log| && log[i].Reopened? ==>
      && HardwareAt(hw, log, i) && i > 0
      && (log[i - 1] == Answered(HardError) || (log[i - 1].Offered? && log[i - 1].answer.Failed?))
  }

  /** Call `i` is an offer of `job` with an answer that settles it: accepted, or refused when there was no
      hardware to give up, and, when the codec was only full, after an earlier offer. */
  predicate Settles(hw: bool, log: seq<CodecCall>, i: nat, job: Job)
    requires i < |log|
  {
    && log[i].Offered? && log[i].job == job
    && !(log[i].answer.Failed? && HardwareAt(hw, log, i))
    && (log[i].answer.Again? ==> exists k :: 0 <= k < i && log[k].Offered? && log[k].job == job)
  }

  /** There is a codec before call `i`: one was open at first, and the last reopen succeeded. */
  predicate OpenAt(start: Codec, log: seq<CodecCall>, i: nat)
    requires i <= |log|
    decreases i
  {
    if i == 0 then start.Codec? else if log[i - 1].Reopened? then log[i - 1].ok else OpenAt(start, log, i - 1)
  }

  /** Whatever is let go was settled by the call before, or there is no codec to offer it to. */
  predicate LetGoWhenSettled(start: Codec, hw: bool, log: seq<CodecCall>) {
    forall i :: 0 <= i < |log| && log[i].LetGo? ==>
      !OpenAt(start, log, i) || (i > 0 && Settles(hw, log, i - 1, log[i].job))
  }

  /** Call `k` put packet `n` into the codec, and it has been neither flushed nor reopened since. */
  predicate InsideSince(log: seq<CodecCall>, k: nat, n: nat) {
    && k < |log| && log[k].Offered? && !log[k].job.eos && log[k].job.number == n && log[k].answer.Accepted?
    && forall j :: k < j < |log| ==> !log[j].Flushed? && !log[j].Reopened?
  }

  /** The packets freed, in order. */
  function Freed(log: seq<CodecCall>): seq<nat> {
    if log == [] then []
    else
      var last := log[|log| - 1];
      Freed(log[..|log| - 1]) + if last.LetGo? && !last.job.eos then [last.job.number] else []
  }

  // ---- Watching the calls -------------------------------------------------------------------

  datatype Due =
    | Nothing
    | MustDrain
    | MustReopen(offered: Option<Job>)
    | MustOffer(job: Job)
    | MustLetGo(job: Job)

  /** `offering`: the job offered and not let go yet. */
  datatype Watch = Watch(open: bool, hw: bool, fed: set<nat>, told: bool, offering: Option<Job>, due: Due)

  predicate Allowed(w: Watch, c: CodecCall) {
    match w.due
    case Nothing =>
      && (if c.LetGo? then !w.open else w.open && !c.Reopened?)
      && (c.LetGo? || c.Offered? ==> w.offering.None? || w.offering == Some(c.job))
    case MustDrain => w.open && c.Answered?
    case MustReopen(_) => c.Reopened?
    case MustOffer(job) => w.open && c.Offered? && c.job == job && w.offering == Some(job)
    case MustLetGo(job) => c == LetGo(job)
  }

  function AfterCall(w: Watch, c: CodecCall): Watch {
    match c
    case Offered(job, a) =>
      var due := if a.Failed? && w.hw then MustReopen(Some(job))
                 else if a.Again? && w.offering.None? then MustDrain
                 else MustLetGo(job);
      if a.Accepted? then
        w.(offering := Some(job), due := due, told := job.eos, fed := if job.eos then w.fed else w.fed + {job.number})
      else w.(offering := Some(job), due := due)
    case Answered(got) => w.(due := if got.HardError? && w.hw then MustReopen(None) else Nothing)
    case Reopened(ok) =>
      var due := match w.due {
        case MustReopen(Some(job)) => if ok then MustOffer(job) else MustLetGo(job)
        case _ => Nothing
      };
      Watch(ok, false, {}, w.told && !ok, w.offering, due)
    case Flushed => w.(fed := {}, told := false)
    case LetGo(_) => w.(offering := None, due := Nothing)
  }

  function WatchOf(start: Codec, hw: bool, log: seq<CodecCall>): Watch {
    if log == [] then Watch(start.Codec?, hw, if start.Codec? then start.fed else {}, false, None, Nothing)
    else AfterCall(WatchOf(start, hw, log[..|log| - 1]), log[|log| - 1])
  }

  predicate Lawful(start: Codec, hw: bool, log: seq<CodecCall>) {
    log == [] ||
    (Lawful(start, hw, log[..|log| - 1]) && Allowed(WatchOf(start, hw, log[..|log| - 1]), log[|log| - 1]))
  }

  /** The worker's own record of the codec. */
  datatype Fields = Fields(codec: Codec, hwActive: bool, flushed: bool, freed: seq<nat>)

  /** The log is lawful and the worker's fields are what it says. */
  ghost predicate Follows(start: Codec, hw: bool, log: seq<CodecCall>, f: Fields) {
    var w := WatchOf(start, hw, log);
    && Lawful(start, hw, log)
    && f.codec.Codec? == w.open && (f.codec.Codec? ==> f.codec.fed == w.fed)
    && f.hwActive == w.hw && f.flushed == w.told && f.freed == Freed(log)
  }

  /** Nothing is due, and `offering` is the job offered and not let go. */
  ghost predicate Quiet(start: Codec, hw: bool, log: seq<CodecCall>, f: Fields, offering: Option<Job>) {
    Follows(start, hw, log, f) && WatchOf(start, hw, log).due.Nothing? && WatchOf(start, hw, log).offering == offering
  }

  /** The same, or a full codec is to be drained first. */
  ghost predicate Drains(start: Codec, hw: bool, log: seq<CodecCall>, f: Fields, offering: Option<Job>) {
    var w := WatchOf(start, hw, log);
    Follows(start, hw, log, f) && (w.due.Nothing? || w.due.MustDrain?) && w.offering == offering
  }

  /** The codec has just given `got`, and the worker has not acted on it. */
  ghost predicate HasGiven(start: Codec, hw: bool, log: seq<CodecCall>, f: Fields, offering: Option<Job>,
                           got: ReceiveResult)
  {
    var w := WatchOf(start, hw, log);
    && Follows(start, hw, log, f) && w.offering == offering
    && w.due == if got.HardError? && f.hwActive then MustReopen(None) else Nothing
  }

  /** The codec has just answered `answer` to `job`; the fields are still those from before. When that was a
      failure on hardware the context is to be reopened, otherwise the job is to be let go. */
  ghost predicate HasAnswered(start: Codec, hw: bool, log: seq<CodecCall>, f: Fields, job: Job, answer: SendResult) {
    var w := WatchOf(start, hw, log);
    && Lawful(start, hw, log) && f.codec.Codec? && w.open && w.hw == f.hwActive && f.freed == Freed(log)
    && w.offering == Some(job)
    && w.due == (if answer.Failed? && w.hw then MustReopen(Some(job)) else MustLetGo(job))
    && w.told == (if answer.Accepted? then job.eos else f.flushed)
    && w.fed == f.codec.fed + if answer.Accepted? && !job.eos then {job.number} else {}
  }

  /** `answer` is the last word on `job`: of the codec, or for want of one. */
  ghost predicate LastAnswer(start: Codec, hw: bool, log: seq<CodecCall>, f: Fields, job: Job, answer: SendResult) {
    if f.codec.Codec? then HasAnswered(start, hw, log, f, job, answer) && !(answer.Failed? && f.hwActive)
    else
      var w := WatchOf(start, hw, log);
      && Follows(start, hw, log, f) && !answer.Accepted? && w.offering == Some(job)
      && (w.due == MustLetGo(job) || w.due.Nothing?)
  }

  lemma Snoc(start: Codec, hw: bool, log: seq<CodecCall>, c: CodecCall)
    ensures WatchOf(start, hw, log + [c]) == AfterCall(WatchOf(start, hw, log), c)
    ensures Lawful(start, hw, log + [c]) <==> Lawful(start, hw, log) && Allowed(WatchOf(start, hw, log), c)
    ensures Freed(log + [c]) == Freed(log) + if c.LetGo? && !c.job.eos then [c.job.number] else []
  {
    hide AfterCall, Allowed;
    assert (log + [c])[..|log|] == log;
  }

  // ---- One call at a time -------------------------------------------------------------------

  lemma FirstOffer(start: Codec, hw: bool, log: seq<CodecCall>, f: Fields, job: Job, answer: SendResult)
    requires Quiet(start, hw, log, f, None) && f.codec.Codec?
    ensures var more := log + [Offered(job, answer)];
            if answer.Again? then Drains(start, hw, more, f, Some(job))
            else HasAnswered(start, hw, more, f, job, answer)
  {
    Snoc(start, hw, log, Offered(job, answer));
    hide WatchOf, Lawful, Freed;
  }

  lemma SecondOffer(start: Codec, hw: bool, log: seq<CodecCall>, f: Fields, job: Job, answer: SendResult)
    requires Quiet(start, hw, log, f, Some(job)) && f.codec.Codec?
    ensures HasAnswered(start, hw, log + [Offered(job, answer)], f, job, answer)
  {
    Snoc(start, hw, log, Offered(job, answer));
    hide WatchOf, Lawful, Freed;
  }

  lemma AnswerGiven(start: Codec, hw: bool, log: seq<CodecCall>, f: Fields, offering: Option<Job>, got: ReceiveResult)
    requires Drains(start, hw, log, f, offering) && f.codec.Codec?
    ensures HasGiven(start, hw, log + [Answered(got)], f, offering, got)
  {
    Snoc(start, hw, log, Answered(got));
    hide WatchOf, Lawful, Freed;
  }

  /** A reopen that succeeds or not. */
  function ReopenedFields(f: Fields, ok: bool): Fields {
    Fields(if ok then Codec({}, 0) else NoCodec, false, f.flushed && !ok, f.freed)
  }

  lemma ReopenedAfterError(start: Codec, hw: bool, log: seq<CodecCall>, f: Fields, offering: Option<Job>,
                           got: ReceiveResult, ok: bool)
    requires HasGiven(start, hw, log, f, offering, got) && got.HardError? && f.hwActive
    ensures Quiet(start, hw, log + [Reopened(ok)], ReopenedFields(f, ok), offering)
  {
    Snoc(start, hw, log, Reopened(ok));
    hide WatchOf, Lawful, Freed;
  }

  lemma NothingToReopen(start: Codec, hw: bool, log: seq<CodecCall>, f: Fields, offering: Option<Job>,
                        got: ReceiveResult, output: nat)
    requires HasGiven(start, hw, log, f, offering, got) && !(got.HardError? && f.hwActive) && f.codec.Codec?
    ensures Quiet(start, hw, log, f.(codec := Codec(f.codec.fed, output)), offering)
  {
    hide WatchOf, Lawful, Freed;
  }

  lemma NotReopened(start: Codec, hw: bool, log: seq<CodecCall>, f: Fields, job: Job, answer: SendResult)
    requires HasAnswered(start, hw, log, f, job, answer) && answer.Failed? && f.hwActive
    ensures LastAnswer(start, hw, log + [Reopened(false)], ReopenedFields(f, false), job, answer)
  {
    Snoc(start, hw, log, Reopened(false));
    hide WatchOf, Lawful, Freed;
  }

  lemma OfferedAgain(start: Codec, hw: bool, log: seq<CodecCall>, f: Fields, job: Job, answer: SendResult,
                     again: SendResult)
    requires HasAnswered(start, hw, log, f, job, answer) && answer.Failed? && f.hwActive
    ensures LastAnswer(start, hw, log + [Reopened(true)] + [Offered(job, again)], ReopenedFields(f, true), job, again)
  {
    Snoc(start, hw, log, Reopened(true));
    Snoc(start, hw, log + [Reopened(true)], Offered(job, again));
    hide WatchOf, Lawful, Freed;
  }

  /** The fields once the answer has been acted on and the packet freed. */
  function SettledFields(f: Fields, job: Job, answer: SendResult): Fields
    requires answer.Accepted? ==> f.codec.Codec?
  {
    var freed := f.freed + if job.eos then [] else [job.number];
    if answer.Accepted? then
      Fields(Codec(if job.eos then f.codec.fed else f.codec.fed + {job.number}, answer.output), f.hwActive, job.eos, freed)
    else f.(freed := freed)
  }

  lemma LetGoAfterAnswer(start: Codec, hw: bool, log: seq<CodecCall>, f: Fields, job: Job, answer: SendResult)
    requires LastAnswer(start, hw, log, f, job, answer)
    ensures Quiet(start, hw, log + [LetGo(job)], SettledFields(f, job, answer), None)
  {
    Snoc(start, hw, log, LetGo(job));
    hide WatchOf, Lawful, Freed;
  }

  lemma LetGoWithoutCodec(start: Codec, hw: bool, log: seq<CodecCall>, f: Fields, job: Job)
    requires Quiet(start, hw, log, f, None) && f.codec.NoCodec?
    ensures Quiet(start, hw, log + [LetGo(job)], SettledFields(f, job, Failed), None)
  {
    Snoc(start, hw, log, LetGo(job));
    hide WatchOf, Lawful, Freed;
  }

  lemma BuffersFlushed(start: Codec, hw: bool, log: seq<CodecCall>, f: Fields)
    requires Quiet(start, hw, log, f, None) && f.codec.Codec?
    ensures Quiet(start, hw, log + [Flushed], f.(codec := Codec({}, 0), flushed := false), None)
  {
    Snoc(start, hw, log, Flushed);
    hide WatchOf, Lawful, Freed;
  }

  lemma QuietDrains(start: Codec, hw: bool, log: seq<CodecCall>, f: Fields, offering: Option<Job>)
    requires Quiet(start, hw, log, f, offering)
    ensures Drains(start, hw, log, f, offering)
  {
    hide WatchOf, Follows;
  }

  lemma LostWhileDraining(start: Codec, hw: bool, log: seq<CodecCall>, f: Fields, job: Job)
    requires Quiet(start, hw, log, f, Some(job)) && f.codec.NoCodec?
    ensures LastAnswer(start, hw, log, f, job, Failed)
  {
    hide WatchOf, Follows;
  }

  // ---- What every lawful log obeys ----------------------------------------------------------

  lemma {:induction false} WatchReads(start: Codec, hw: bool, log: seq<CodecCall>, i: nat)
    requires i <= |log|
    ensures WatchOf(start, hw, log[..i]).open == OpenAt(start, log, i)
    ensures WatchOf(start, hw, log[..i]).hw == HardwareAt(hw, log, i)
    decreases i
  {
    if i > 0 {
      WatchReads(start, hw, log, i - 1);
      assert log[..i][..i - 1] == log[..i - 1];
    }
  }

  /** Every call of a lawful log was allowed when it was made. */
  lemma {:induction false} LawfulAt(start: Codec, hw: bool, log: seq<CodecCall>, i: nat)
    requires Lawful(start, hw, log) && i < |log|
    ensures Lawful(start, hw, log[..i]) && Allowed(WatchOf(start, hw, log[..i]), log[i])
    ensures WatchOf(start, hw, log[..i + 1]) == AfterCall(WatchOf(start, hw, log[..i]), log[i])
    decreases |log|
  {
    var n := |log| - 1;
    hide Allowed, AfterCall;
    assert log[..i + 1][..i] == log[..i];
    if i < n {
      LawfulAt(start, hw, log[..n], i);
      assert log[..n][..i] == log[..i] && log[..n][i] == log[i] && log[..n][..i + 1] == log[..i + 1];
    }
  }

  /** While something is due, the log goes on. */
  lemma GoesOn(start: Codec, hw: bool, log: seq<CodecCall>, i: nat)
    requires Lawful(start, hw, log) && WatchOf(start, hw, log).due.Nothing? && i < |log|
    requires !AfterCall(WatchOf(start, hw, log[..i]), log[i]).due.Nothing?
    ensures i + 1 < |log| && Allowed(AfterCall(WatchOf(start, hw, log[..i]), log[i]), log[i + 1])
    ensures WatchOf(start, hw, log[..i + 2]) ==
            AfterCall(AfterCall(WatchOf(start, hw, log[..i]), log[i]), log[i + 1])
  {
    hide Allowed, AfterCall, Lawful;
    LawfulAt(start, hw, log, i);
    assert log[..|log|] == log;
    if i + 1 < |log| { LawfulAt(start, hw, log, i + 1); }
  }

  /** The retry of the same packet: dropping it would break the frames that build on it. */
  lemma HardwareFailuresAreRetried(start: Codec, hw: bool, log: seq<CodecCall>)
    requires Lawful(start, hw, log) && WatchOf(start, hw, log).due.Nothing?
    ensures FailuresAreRetried(hw, log)
  {
    hide WatchOf, Lawful;
    forall i | 0 <= i < |log| && log[i].Offered? && log[i].answer.Failed? && HardwareAt(hw, log, i)
      ensures i + 2 < |log| && log[i + 1].Reopened?
      ensures if log[i + 1].ok then log[i + 2].Offered? && log[i + 2].job == log[i].job && LetGoNext(log, i + 2)
              else log[i + 2] == LetGo(log[i].job)
    {
      RetriedAt(start, hw, log, i);
    }
  }

  lemma RetriedAt(start: Codec, hw: bool, log: seq<CodecCall>, i: nat)
    requires Lawful(start, hw, log) && WatchOf(start, hw, log).due.Nothing?
    requires i < |log| && log[i].Offered? && log[i].answer.Failed? && HardwareAt(hw, log, i)
    ensures i + 2 < |log| && log[i + 1].Reopened?
    ensures if log[i + 1].ok then log[i + 2].Offered? && log[i + 2].job == log[i].job && LetGoNext(log, i + 2)
            else log[i + 2] == LetGo(log[i].job)
  {
    hide WatchOf, Lawful, HardwareAt, AfterCall, Allowed;
    var w := WatchOf(start, hw, log[..i]);
    WatchReads(start, hw, log, i);
    LawfulAt(start, hw, log, i);
    AfterFailure(w, log[i]);
    GoesOn(start, hw, log, i);
    AfterRetry(w, log[i], log[i + 1]);
    LawfulAt(start, hw, log, i + 1);
    GoesOn(start, hw, log, i + 1);
    if log[i + 1].ok {
      AfterSecond(AfterCall(AfterCall(w, log[i]), log[i + 1]), log[i + 2]);
      LawfulAt(start, hw, log, i + 2);
      GoesOn(start, hw, log, i + 2);
    }
    LetGoAllowed();
  }

  lemma AfterFailure(w: Watch, c: CodecCall)
    requires c.Offered? && c.answer.Failed? && w.hw
    ensures AfterCall(w, c).due == MustReopen(Some(c.job)) && AfterCall(w, c).offering == Some(c.job)
  {}

  lemma AfterRetry(w: Watch, c: CodecCall, d: CodecCall)
    requires c.Offered? && c.answer.Failed? && w.hw && Allowed(AfterCall(w, c), d)
    ensures d.Reopened?
    ensures var u := AfterCall(AfterCall(w, c), d);
            && u.due == (if d.ok then MustOffer(c.job) else MustLetGo(c.job)) && !u.hw && u.offering == Some(c.job)
  {}

  lemma AfterSecond(w: Watch, c: CodecCall)
    requires w.due.MustOffer? && !w.hw && w.offering == Some(w.due.job) && Allowed(w, c)
    ensures c.Offered? && c.job == w.due.job && AfterCall(w, c).due == MustLetGo(c.job)
  {}

  lemma LetGoAllowed()
    ensures forall w: Watch, c: CodecCall :: w.due.MustLetGo? && Allowed(w, c) ==> c == LetGo(w.due.job)
  {}

  lemma HardErrorsReopen(start: Codec, hw: bool, log: seq<CodecCall>)
    requires Lawful(start, hw, log) && WatchOf(start, hw, log).due.Nothing?
    ensures ErrorsReopen(hw, log)
  {
    hide WatchOf, Lawful, HardwareAt;
    forall i | 0 <= i < |log| && log[i] == Answered(HardError) && HardwareAt(hw, log, i)
      ensures i + 1 < |log| && log[i + 1].Reopened?
    {
      WatchReads(start, hw, log, i);
      GoesOn(start, hw, log, i);
    }
  }

  lemma ReopensAtMostOnce(start: Codec, hw: bool, log: seq<CodecCall>)
    requires Lawful(start, hw, log)
    ensures ReopenedOnce(hw, log)
  {
    hide WatchOf, Lawful, HardwareAt;
    forall i | 0 <= i < |log| && log[i].Reopened?
      ensures HardwareAt(hw, log, i) && i > 0
      ensures log[i - 1] == Answered(HardError) || (log[i - 1].Offered? && log[i - 1].answer.Failed?)
    {
      WatchReads(start, hw, log, i);
      LawfulAt(start, hw, log, i);
      ReopenWasDue(start, hw, log, i);
    }
  }

  lemma ReopenWasDue(start: Codec, hw: bool, log: seq<CodecCall>, i: nat)
    requires Lawful(start, hw, log) && i <= |log| && WatchOf(start, hw, log[..i]).due.MustReopen?
    ensures i > 0 && WatchOf(start, hw, log[..i]).hw
    ensures log[i - 1] == Answered(HardError) || (log[i - 1].Offered? && log[i - 1].answer.Failed?)
  {
    assert log[..0] == [];
    hide AfterCall, Allowed, Lawful;
    if i > 0 {
      LawfulAt(start, hw, log, i - 1);
      AfterWhat(WatchOf(start, hw, log[..i - 1]), log[i - 1]);
    }
  }

  lemma AfterWhat(w: Watch, c: CodecCall)
    requires AfterCall(w, c).due.MustReopen? && Allowed(w, c)
    ensures AfterCall(w, c).hw && (c == Answered(HardError) || (c.Offered? && c.answer.Failed?))
  {}

  lemma {:induction false} OfferedBefore(start: Codec, hw: bool, log: seq<CodecCall>, i: nat, job: Job)
    requires i <= |log| && WatchOf(start, hw, log[..i]).offering == Some(job)
    ensures exists k :: 0 <= k < i && log[k].Offered? && log[k].job == job
    decreases i
  {
    if i > 0 {
      assert log[..i][..i - 1] == log[..i - 1];
      if !log[i - 1].Offered? { OfferedBefore(start, hw, log, i - 1, job); }
    }
  }

  /** A packet is freed, and a marker given up, only when the last codec it could be offered to has answered
      for it, or there is none. */
  lemma LetGoIsSettled(start: Codec, hw: bool, log: seq<CodecCall>)
    requires Lawful(start, hw, log)
    ensures LetGoWhenSettled(start, hw, log)
  {
    forall i | 0 <= i < |log| && log[i].LetGo?
      ensures !OpenAt(start, log, i) || (i > 0 && Settles(hw, log, i - 1, log[i].job))
    {
      WatchReads(start, hw, log, i);
      LawfulAt(start, hw, log, i);
      if OpenAt(start, log, i) { SettledBefore(start, hw, log, i); }
    }
  }

  lemma SettledBefore(start: Codec, hw: bool, log: seq<CodecCall>, i: nat)
    requires Lawful(start, hw, log) && i < |log| && WatchOf(start, hw, log[..i]).open
    requires log[i].LetGo? && Allowed(WatchOf(start, hw, log[..i]), log[i])
    ensures i > 0 && Settles(hw, log, i - 1, log[i].job)
  {
    assert log[..0] == [];
    hide Settles, AfterCall, Allowed;
    LetGoIsDue(WatchOf(start, hw, log[..i]), log[i]);
    if i > 0 {
      var w, last := WatchOf(start, hw, log[..i - 1]), log[i - 1];
      LawfulAt(start, hw, log, i - 1);
      WatchReads(start, hw, log, i - 1);
      hide *;
      DueAfterOffer(w, last, log[i].job);
      if last.answer.Again? { OfferedBefore(start, hw, log, i - 1, last.job); }
      SettlesAt(hw, log, i - 1, log[i].job);
    }
  }

  lemma SettlesAt(hw: bool, log: seq<CodecCall>, i: nat, job: Job)
    requires i < |log| && log[i].Offered? && log[i].job == job && !(log[i].answer.Failed? && HardwareAt(hw, log, i))
    requires log[i].answer.Again? ==> exists k :: 0 <= k < i && log[k].Offered? && log[k].job == job
    ensures Settles(hw, log, i, job)
  {
    hide HardwareAt;
  }

  lemma LetGoIsDue(w: Watch, c: CodecCall)
    requires c.LetGo? && Allowed(w, c) && w.open
    ensures w.due == MustLetGo(c.job)
  {}

  lemma DueAfterOffer(w: Watch, c: CodecCall, job: Job)
    requires Allowed(w, c) && AfterCall(w, c).due == MustLetGo(job) && AfterCall(w, c).open
    ensures c.Offered? && c.job == job && !(c.answer.Failed? && w.hw)
    ensures c.answer.Again? ==> w.offering == Some(job)
  {}

  /** Accepted packets are in the codec until it is flushed or reopened, and nothing else is, but for what was
      there at first. */
  lemma {:induction false} FedIsAccepted(start: Codec, hw: bool, log: seq<CodecCall>, n: nat)
    ensures n in WatchOf(start, hw, log).fed <==>
              || (exists k: nat :: InsideSince(log, k, n))
              || (start.Codec? && n in start.fed && forall j :: 0 <= j < |log| ==> !log[j].Flushed? && !log[j].Reopened?)
    decreases |log|
  {
    if log != [] {
      var m := |log| - 1;
      FedIsAccepted(start, hw, log[..m], n);
      InsideOneMore(log, n);
      hide InsideSince;
      assert forall j :: 0 <= j < m ==> log[..m][j] == log[j];
    }
  }

  lemma InsideOneMore(log: seq<CodecCall>, n: nat)
    requires log != []
    ensures var m := |log| - 1;
            (exists k: nat :: InsideSince(log, k, n)) <==>
              || InsideSince(log, m, n)
              || (!log[m].Flushed? && !log[m].Reopened? && exists k: nat :: InsideSince(log[..m], k, n))
  {
    var m := |log| - 1;
    assert forall j :: 0 <= j < m ==> log[..m][j] == log[j];
    forall k: nat | k != m
      ensures InsideSince(log, k, n) <==> !log[m].Flushed? && !log[m].Reopened? && InsideSince(log[..m], k, n)
    {}
  }
}
