/** Creating an export file under a name nobody has: "name", then "name (1)", "name (2)" and so on, each
    claimed atomically while other processes create, replace and remove entries in between. */
module AtomicFile {
  import opened Common

  const MAX_EXPORT_COMPONENT_BYTES: nat := 255
  const MAX_COLLISION_ATTEMPTS: nat := 10000

  // ---- Names --------------------------------------------------------------------------------------

  /** Names one true child of a directory: no separator, no NUL, neither "." nor "..". */
  predicate IsPlainComponent(name: string) {
    && name != "" && |name| <= MAX_EXPORT_COMPONENT_BYTES && name != "." && name != ".."
    && forall i :: 0 <= i < |name| ==> name[i] != '/' && name[i] != '\\' && name[i] != '\0'
  }

  /** What is plain, by the characters in it. */
  lemma PlainIff(name: string)
    ensures IsPlainComponent(name) <==>
              && 1 <= |name| <= 255 && name !in {".", ".."} && '/' !in name && '\\' !in name && '\0' !in name
  {}

  /** Where the last dot is; the length when there is none. */
  function LastDot(name: string): (i: nat)
    ensures i <= |name| && (i < |name| ==> name[i] == '.')
    ensures forall j :: i < j < |name| ==> name[j] != '.'
  {
    if name == "" then 0
    else if name[|name| - 1] == '.' then |name| - 1
    else
      var i := LastDot(name[..|name| - 1]);
      if i == |name| - 1 then |name| else i
  }

  /** How much of the name comes before its extension. A leading dot starts none, nor does a last one. */
  function StemLength(name: string): (n: nat)
    ensures n <= |name|
  {
    var dot := LastDot(name);
    if 0 < dot && dot + 1 < |name| then dot else |name|
  }

  function Decimal(n: nat): (s: string)
    ensures s != ""
  {
    if n < 10 then [Digit(n)] else Decimal(n / 10) + [Digit(n % 10)]
  }

  function Digit(d: nat): char
    requires d < 10
  {
    ('0' as int + d) as char
  }

  function CollidedName(original: string, n: nat): string {
    var stem := StemLength(original);
    original[..stem] + " (" + Decimal(n) + ")" + original[stem..]
  }

  /** The name tried at attempt `n`. */
  function Candidate(original: string, n: nat): string {
    if n == 0 then original else CollidedName(original, n)
  }

  lemma {:induction false} DecimalIsInjective(m: nat, n: nat)
    requires Decimal(m) == Decimal(n)
    ensures m == n
  {
    var s := Decimal(m);
    if m >= 10 && n >= 10 {
      assert s[..|s| - 1] == Decimal(m / 10) && s[..|s| - 1] == Decimal(n / 10);
      DecimalIsInjective(m / 10, n / 10);
      assert s[|s| - 1] == Digit(m % 10) == Digit(n % 10);
    } else {
      if m >= 10 { LongDecimal(m); }
      if n >= 10 { LongDecimal(n); }
      assert m < 10 && n < 10 ==> Digit(m) == s[0] == Digit(n);
    }
  }

  lemma LongDecimal(n: nat)
    requires n >= 10
    ensures |Decimal(n)| >= 2
  {
    assert Decimal(n / 10) != "";
  }

  /** The suffix goes before the extension: what follows the last dot, if there is something before that dot and
      after it. */
  lemma SuffixBeforeExtension(stem: string, extension: string, n: nat)
    requires stem != "" && extension != "" && '.' !in extension
    ensures CollidedName(stem + "." + extension, n) == stem + " (" + Decimal(n) + ")." + extension
  {
    var name := stem + "." + extension;
    LastDotIs(name, |stem|);
    assert name[..|stem|] == stem && name[|stem|..] == "." + extension;
  }

  /** A name without a dot, one that only starts with one and one that ends with one have no extension. */
  lemma SuffixAtTheEnd(name: string, n: nat)
    requires || '.' !in name
             || (name[0] == '.' && '.' !in name[1..])
             || name[|name| - 1] == '.'
    ensures CollidedName(name, n) == name + " (" + Decimal(n) + ")"
  {
    if '.' !in name {
      LastDotIs(name, |name|);
    } else if name[|name| - 1] == '.' {
      LastDotIs(name, |name| - 1);
    } else {
      forall j | 0 < j < |name| ensures name[j] != '.' { assert name[1..][j - 1] == name[j]; }
      LastDotIs(name, 0);
    }
    assert name[..|name|] == name && name[|name|..] == "";
  }

  lemma LastDotIs(name: string, i: nat)
    requires i <= |name| && if i < |name| then name[i] == '.' else '.' !in name
    requires forall j :: i < j < |name| ==> name[j] != '.'
    ensures LastDot(name) == i
  {
    var dot := LastDot(name);
    assert dot < |name| ==> dot <= i;
  }

  /** The number a numeral stands for. */
  function ValueOf(s: string): nat
    requires forall i :: 0 <= i < |s| ==> '0' <= s[i] <= '9'
  {
    if s == "" then 0 else 10 * ValueOf(s[..|s| - 1]) + (s[|s| - 1] as int - '0' as int)
  }

  /** A number is printed in decimal digits that stand for it, without leading zeros. */
  lemma {:induction false} DecimalReads(n: nat)
    ensures forall i :: 0 <= i < |Decimal(n)| ==> '0' <= Decimal(n)[i] <= '9'
    ensures ValueOf(Decimal(n)) == n && (n > 0 ==> Decimal(n)[0] != '0')
  {
    if n >= 10 {
      DecimalReads(n / 10);
      var s := Decimal(n);
      assert s[..|s| - 1] == Decimal(n / 10) && s[0] == Decimal(n / 10)[0];
    } else {
      assert Decimal(n)[..0] == "";
    }
  }

  /** No two attempts try the same name. */
  lemma CandidatesAreDistinct(original: string, m: nat, n: nat)
    requires Candidate(original, m) == Candidate(original, n)
    ensures m == n
  {
    hide Decimal, StemLength;
    var stem := StemLength(original);
    var a, b := Candidate(original, m), Candidate(original, n);
    if m == 0 || n == 0 {
      assert |CollidedName(original, m)| > |original| && |CollidedName(original, n)| > |original|;
    } else {
      var tail := ")" + original[stem..];
      assert a == original[..stem] + " (" + Decimal(m) + tail && b == original[..stem] + " (" + Decimal(n) + tail;
      assert |Decimal(m)| == |Decimal(n)|;
      assert Decimal(m) == a[stem + 2..stem + 2 + |Decimal(m)|];
      assert Decimal(n) == b[stem + 2..stem + 2 + |Decimal(n)|];
      DecimalIsInjective(m, n);
    }
  }

  /** A set that holds the candidates of attempts `lo` to `hi` has that many names at least. */
  lemma {:induction false} ManyCandidates(original: string, lo: nat, hi: nat, names: set<string>)
    requires lo <= hi && forall n :: lo <= n < hi ==> Candidate(original, n) in names
    ensures |names| >= hi - lo
    decreases hi
  {
    if lo < hi {
      var last := Candidate(original, hi - 1);
      forall n | lo <= n < hi - 1
        ensures Candidate(original, n) in names - {last}
      {
        if Candidate(original, n) == last { CandidatesAreDistinct(original, n, hi - 1); }
      }
      hide Candidate;
      ManyCandidates(original, lo, hi - 1, names - {last});
      assert |names| == |names - {last}| + 1;
    }
  }

  // ---- The directory ------------------------------------------------------------------------------

  /** Each name's inode; `nextInode` has never been given out. */
  datatype Dir = Dir(entries: map<string, nat>, nextInode: nat)
  {
    function Look(name: string): Option<nat> { if name in entries then Some(entries[name]) else None }

    function Put(name: string, inode: nat): Dir {
      Dir(entries[name := inode], if inode < nextInode then nextInode else inode + 1)
    }

    function Without(name: string): Dir { this.(entries := entries - {name}) }
  }

  /** Another process creates an entry or renames one over it, or removes one. */
  datatype OtherStep = Placed(name: string, inode: nat) | Removed(name: string)

  function AfterOthers(d: Dir, steps: seq<OtherStep>): Dir {
    if steps == [] then d
    else
      var before := AfterOthers(d, steps[..|steps| - 1]);
      match steps[|steps| - 1]
      case Placed(name, inode) => before.Put(name, inode)
      case Removed(name) => before.Without(name)
  }

  /** The last step on `name`. */
  function LastTouch(steps: seq<OtherStep>, name: string): Option<OtherStep> {
    if steps == [] then None
    else if steps[|steps| - 1].name == name then Some(steps[|steps| - 1])
    else LastTouch(steps[..|steps| - 1], name)
  }

  lemma {:induction false} LookAfterOthers(d: Dir, steps: seq<OtherStep>, name: string)
    ensures AfterOthers(d, steps).Look(name) ==
            match LastTouch(steps, name) {
              case None => d.Look(name)
              case Some(Placed(_, inode)) => Some(inode)
              case Some(Removed(_)) => None
            }
    decreases |steps|
  {
    if steps != [] { LookAfterOthers(d, steps[..|steps| - 1], name); }
  }

  /** EEXIST, ELOOP, and every other error together. */
  datatype CreateResult = Made | Exists | Loop | Hard

  datatype Tried = Claimed | Taken | Stopped

  /** A name tried, and the names there were in the directory just then. */
  datatype Attempt = Attempt(name: string, present: set<string>)

  /** What one attempt meets: what others do before it and, when the stream cannot be opened on the file
      made, before that is removed again; and which system calls fail. */
  datatype Surroundings = Surroundings(
    before: seq<OtherStep>, broken: bool, streamed: bool, between: seq<OtherStep>, unlinked: bool)

  /** What the call did to the directory: nothing; a free name claimed; or a file made under a free name, and
      then whatever had that name removed. */
  datatype Effect =
    | Untouched
    | MadeOne(name: string, inode: nat)
    | Discarded(name: string, inode: nat, removed: Option<nat>)

  datatype Outcome = Outcome(dir: Dir, result: Tried, effect: Effect)

  function Attempted(d: Dir, name: string, env: Surroundings): Outcome {
    var met := AfterOthers(d, env.before);
    if env.broken then Outcome(met, Stopped, Untouched)
    else if name in met.entries then Outcome(met, Taken, Untouched)
    else
      var inode, made := met.nextInode, met.Put(name, met.nextInode);
      if env.streamed then Outcome(made, Claimed, MadeOne(name, inode))
      else
        var found := AfterOthers(made, env.between);
        if env.unlinked then Outcome(found.Without(name), Stopped, Discarded(name, inode, found.Look(name)))
        else Outcome(found, Stopped, Discarded(name, inode, None))
  }

  /** The attempts from number `first` on, up to the first that is not taken. */
  function Created(d: Dir, name: string, first: nat, envs: seq<Surroundings>): Outcome {
    if envs == [] then Outcome(d, Taken, Untouched)
    else
      var n := |envs| - 1;
      var so := Created(d, name, first, envs[..n]);
      if so.result.Taken? then Attempted(so.dir, Candidate(name, first + n), envs[n]) else so
  }

  /** What those attempts tried. */
  function Tries(d: Dir, name: string, first: nat, envs: seq<Surroundings>): (made: seq<Attempt>)
    ensures |made| == |envs|
  {
    if envs == [] then []
    else
      var n := |envs| - 1;
      var met := AfterOthers(Created(d, name, first, envs[..n]).dir, envs[n].before);
      Tries(d, name, first, envs[..n]) + [Attempt(Candidate(name, first + n), met.entries.Keys)]
  }

  /** One entry before and after a system call. */
  datatype Change = Change(name: string, before: Option<nat>, after: Option<nat>)

  function ChangesOf(e: Effect): seq<Change> {
    match e
    case Untouched => []
    case MadeOne(name, inode) => [Change(name, None, Some(inode))]
    case Discarded(name, inode, None) => [Change(name, None, Some(inode))]
    case Discarded(name, inode, Some(gone)) => [Change(name, None, Some(inode)), Change(name, Some(gone), None)]
  }

  /** The only entries altered are ones put there by an earlier change. */
  predicate SparesOthers(changes: seq<Change>) {
    forall i :: 0 <= i < |changes| && changes[i].before.Some? ==>
      exists j :: 0 <= j < i && changes[j].name == changes[i].name && changes[j].after == changes[i].before
  }

  /** What it removed, if anything, was not the file it had made. */
  predicate RemovedAnother(e: Effect) { e.Discarded? && e.removed.Some? && e.removed.value != e.inode }

  lemma SparesOthersUnless(e: Effect)
    ensures SparesOthers(ChangesOf(e)) <==> !RemovedAnother(e)
  {
    var changes := ChangesOf(e);
    if e.Discarded? && e.removed.Some? {
      assert changes[1].before == e.removed && changes[0].after == Some(e.inode);
    }
  }

  /** An attempt alters an entry it did not make exactly when the stream could not be opened, another process
      had by then put its own file in the place of the one just made, and the removal went through. */
  lemma SparesOthersIff(d: Dir, name: string, env: Surroundings)
    ensures var met := AfterOthers(d, env.before);
            !SparesOthers(ChangesOf(Attempted(d, name, env).effect)) <==>
              && !env.broken && name !in met.entries && !env.streamed && env.unlinked
              && (match LastTouch(env.between, name)
                  case Some(Placed(_, inode)) => inode != met.nextInode
                  case _ => false)
  {
    var met := AfterOthers(d, env.before);
    LookAfterOthers(met.Put(name, met.nextInode), env.between, name);
    SparesOthersUnless(Attempted(d, name, env).effect);
    hide AfterOthers, LastTouch, SparesOthers;
  }

  /** So a call can remove another process's file, whatever name it was asked for and finds free. */
  lemma ReplacedFileIsRemoved(d: Dir, name: string)
    requires name !in d.entries
    ensures exists env :: !SparesOthers(ChangesOf(Created(d, name, 0, [env]).effect))
  {
    var between := [Placed(name, d.nextInode + 1)];
    var env := Surroundings([], false, false, between, true);
    assert [env][..0] == [];
    assert Created(d, name, 0, []) == Outcome(d, Taken, Untouched);
    assert Created(d, name, 0, [env]) == Attempted(d, name, env);
    SparesOthersIff(d, name, env);
  }

  /** The directory now, the changes made since and the streams that failed are those of `out`. */
  predicate Did(out: Outcome, now: Dir, before: seq<Change>, after: seq<Change>, streamFailures: int) {
    && now == out.dir && after == before + ChangesOf(out.effect)
    && streamFailures == if out.effect.Discarded? then 1 else 0
  }

  function ClaimedBy(e: Effect): Option<string> { if e.MadeOne? then Some(e.name) else None }

  class OutputDirectory {
    const isOpen: bool
    var dir: Dir
    var collisionArmed: bool         // the test seam
    ghost var changes: seq<Change>   // what the calls themselves did
    ghost var failures: nat          // system calls that failed for another reason than a taken name
    ghost var streamFailures: nat    // those of them that could not open a stream

    constructor (isOpen: bool)
      ensures this.isOpen == isOpen && dir == Dir(map[], 0) && changes == []
    {
      this.isOpen, dir, collisionArmed := isOpen, Dir(map[], 0), false;
      changes, failures, streamFailures := [], 0, 0;
    }

    /** Other processes: any number of creations, replacements and removals. */
    method Others() returns (ghost steps: seq<OtherStep>)
      modifies `dir
      ensures dir == AfterOthers(old(dir), steps)
    {
      steps := [];
      var left: nat := *;
      while left > 0
        invariant dir == AfterOthers(old(dir), steps)
      {
        var step: OtherStep := *;
        match step {
          case Placed(name, inode) =>
            dir := dir.Put(name, inode);
          case Removed(name) =>
            dir := dir.Without(name);
        }
        assert (steps + [step])[..|steps|] == steps;
        steps, left := steps + [step], left - 1;
      }
    }

    /** The exclusive create: takes a name only when nothing has it. */
    method OpenatCreat(name: string) returns (r: CreateResult)
      modifies `dir, `changes, `failures
      ensures failures == old(failures) + if r.Hard? then 1 else 0
      ensures r.Made? ==>
                && name !in old(dir).entries && dir == old(dir).Put(name, old(dir).nextInode)
                && changes == old(changes) + [Change(name, None, Some(old(dir).nextInode))]
      ensures !r.Made? ==> dir == old(dir) && changes == old(changes)
      ensures r.Exists? || r.Loop? ==> name in dir.entries
    {
      var broken := *;
      if broken {
        failures := failures + 1;
        return Hard;
      }
      if name in dir.entries {
        var link := *;
        return if link then Loop else Exists;
      }
      changes := changes + [Change(name, None, Some(dir.nextInode))];
      dir := dir.Put(name, dir.nextInode);
      r := Made;
    }

    /** fdopen. */
    method OpenStream() returns (ok: bool)
      modifies `failures, `streamFailures
      ensures failures == old(failures) + if ok then 0 else 1
      ensures streamFailures == old(streamFailures) + if ok then 0 else 1
    {
      ok := *;
      if !ok { failures, streamFailures := failures + 1, streamFailures + 1; }
    }

    /** unlinkat: removes whatever has the name now, if it can. */
    method Unlink(name: string) returns (ghost unlinked: bool)
      modifies `dir, `changes
      ensures dir == if unlinked then old(dir).Without(name) else old(dir)
      ensures changes == old(changes) +
                if unlinked && name in old(dir).entries then [Change(name, Some(old(dir).entries[name]), None)] else []
    {
      var works := *;
      unlinked := works;
      if works {
        if name in dir.entries { changes := changes + [Change(name, Some(dir.entries[name]), None)]; }
        dir := dir.Without(name);
      }
    }

    /** One attempt, whatever others have done since the last. Only a stream that cannot be opened makes the
        call remove anything. */
    method Try(candidate: string) returns (r: Tried, ghost env: Surroundings)
      modifies this
      ensures collisionArmed == old(collisionArmed)
      ensures var out := Attempted(old(dir), candidate, env);
              && r == out.result && Did(out, dir, old(changes), changes, streamFailures - old(streamFailures))
              && (SparesOthers(ChangesOf(out.effect)) <==> !RemovedAnother(out.effect))
      ensures if r.Stopped? then failures > old(failures) else failures == old(failures)
    {
      hide AfterOthers, SparesOthers, RemovedAnother;
      forall e: Effect ensures SparesOthers(ChangesOf(e)) <==> !RemovedAnother(e) { SparesOthersUnless(e); }
      ghost var before := Others();
      var made := OpenatCreat(candidate);
      env := Surroundings(before, made.Hard?, true, [], false);
      match made
      case Hard => r := Stopped;
      case Exists => r := Taken;
      case Loop => r := Taken;
      case Made =>
        var streamed := OpenStream();
        if streamed { return Claimed, env; }
        ghost var between := Others();
        ghost var unlinked := Unlink(candidate);
        env := Surroundings(before, false, false, between, unlinked);
        DiscardedChanges(old(changes), candidate, Attempted(old(dir), candidate, env).effect);
        r := Stopped;
    }

    /** The attempt after those from `first` on that met `envs` and found every candidate taken. */
    method TryNext(name: string, n: nat, ghost start: Dir, ghost first: nat, ghost envs: seq<Surroundings>)
      returns (r: Tried, ghost env: Surroundings)
      requires n == first + |envs| && AllTakenSoFar(start, name, first, envs, dir)
      modifies this
      ensures collisionArmed == old(collisionArmed)
      ensures r.Taken? ==>
                && AllTakenSoFar(start, name, first, envs + [env], dir)
                && changes == old(changes) && failures == old(failures) && streamFailures == old(streamFailures)
      ensures r.Claimed? ==> ClaimsFirstFree(name, first, Tries(start, name, first, envs + [env]), Candidate(name, n))
      ensures r.Stopped? ==> failures > old(failures)
      ensures var out := Created(start, name, first, envs + [env]);
              && Did(out, dir, old(changes), changes, streamFailures - old(streamFailures))
              && ClaimedBy(out.effect) == if r.Claimed? then Some(Candidate(name, n)) else None
    {
      hide *;
      r, env := Try(Candidate(name, n));
      OneMoreAttempt(start, name, first, envs, old(dir), env);
      if r.Taken? {
        TakenIsUntouched(Attempted(old(dir), Candidate(name, n), env), dir, old(changes), changes,
                         streamFailures - old(streamFailures));
      }
    }

    /** The attempts, from the first that the armed seam does not skip. */
    method ClaimInTurn(name: string)
      returns (claimed: Option<string>, ghost first: nat, ghost envs: seq<Surroundings>)
      modifies this
      ensures first == if old(collisionArmed) then 1 else 0
      ensures var made := Tries(old(dir), name, first, envs);
              && (claimed.Some? ==> ClaimsFirstFree(name, first, made, claimed.value))
              && (claimed.None? && failures == old(failures) ==>
                    AllTaken(name, first, made) && first + |made| == MAX_COLLISION_ATTEMPTS + 1 && changes == old(changes))
      ensures var out := Created(old(dir), name, first, envs);
              && Did(out, dir, old(changes), changes, streamFailures - old(streamFailures))
              && claimed == ClaimedBy(out.effect)
    {
      NothingDone(old(dir), name, changes);
      hide *;
      claimed, envs := None, [];
      first := if collisionArmed then 1 else 0;
      for n := 0 to MAX_COLLISION_ATTEMPTS + 1
        invariant changes == old(changes) && failures == old(failures) && streamFailures == old(streamFailures)
        invariant collisionArmed == (n == 0 && old(collisionArmed)) && |envs| == (if n < first then 0 else n - first)
        invariant AllTakenSoFar(old(dir), name, first, envs, dir)
      {
        var injected := collisionArmed;
        collisionArmed := false;
        if injected { continue; }
        var r, env := TryNext(name, n, old(dir), first, envs);
        envs := envs + [env];
        if !r.Taken? {
          claimed := if r.Claimed? then Some(Candidate(name, n)) else None;
          return;
        }
      }
      AllTakenThen(old(dir), name, first, envs, dir);
    }

    /** The name claimed, where the attempts from number `first` on (the armed seam skips one) met `envs`. A
        success takes the first candidate that was free at its own attempt. With no other failure, giving up
        means that every candidate was taken when tried, so more names were met than in a directory where no
        more than ten thousand ever exist meanwhile. No entry of another process is touched unless the stream
        could not be opened on the file made and something else then had its name. */
    method CreateFile(name: string) returns (claimed: Option<string>, ghost first: nat, ghost envs: seq<Surroundings>)
      modifies this
      ensures !isOpen || !IsPlainComponent(name) ==> claimed.None? && dir == old(dir) && envs == []
      ensures isOpen && IsPlainComponent(name) ==>
                var made := Tries(old(dir), name, first, envs);
                && first == (if old(collisionArmed) then 1 else 0)
                && (claimed.Some? ==> ClaimsFirstFree(name, first, made, claimed.value))
                && (claimed.None? && failures == old(failures) ==>
                      && AllTaken(name, first, made) && first + |made| == MAX_COLLISION_ATTEMPTS + 1
                      && |Met(made)| >= |made| && changes == old(changes))
      ensures var out := Created(old(dir), name, first, envs);
              && Did(out, dir, old(changes), changes, streamFailures - old(streamFailures))
              && claimed == ClaimedBy(out.effect)
              && (SparesOthers(ChangesOf(out.effect)) <==> !RemovedAnother(out.effect))
    {
      NothingDone(old(dir), name, changes);
      hide *;
      if !isOpen || !IsPlainComponent(name) { return None, 0, []; }
      claimed, first, envs := ClaimInTurn(name);
      SparesOthersUnless(Created(old(dir), name, first, envs).effect);
      if claimed.None? && failures == old(failures) { AllTakenMet(name, first, Tries(old(dir), name, first, envs)); }
    }
  }

  lemma DiscardedChanges(changes: seq<Change>, name: string, e: Effect)
    requires e.Discarded? && e.name == name
    ensures changes + ChangesOf(e) ==
            changes + [Change(name, None, Some(e.inode))] +
              if e.removed.Some? then [Change(name, e.removed, None)] else []
  {}

  lemma NothingDone(d: Dir, name: string, changes: seq<Change>)
    ensures forall first ::
              AllTakenSoFar(d, name, first, [], d) && Created(d, name, first, []) == Outcome(d, Taken, Untouched)
    ensures forall now :: Did(Outcome(now, Taken, Untouched), now, changes, changes, 0)
    ensures ClaimedBy(Untouched) == None && (SparesOthers(ChangesOf(Untouched)) <==> !RemovedAnother(Untouched))
  {}

  lemma TakenIsUntouched(out: Outcome, now: Dir, before: seq<Change>, after: seq<Change>, streamFailures: int)
    requires out.effect.Untouched? && Did(out, now, before, after, streamFailures)
    ensures now == out.dir && before == after && streamFailures == 0
  {}

  /** All the attempts so far found their candidate taken, and now the directory is `now`. */
  ghost predicate AllTakenSoFar(d: Dir, name: string, first: nat, envs: seq<Surroundings>, now: Dir) {
    AllTaken(name, first, Tries(d, name, first, envs)) && Created(d, name, first, envs) == Outcome(now, Taken, Untouched)
  }

  lemma AllTakenThen(d: Dir, name: string, first: nat, envs: seq<Surroundings>, now: Dir)
    requires AllTakenSoFar(d, name, first, envs, now)
    ensures AllTaken(name, first, Tries(d, name, first, envs)) && |Tries(d, name, first, envs)| == |envs|
    ensures Created(d, name, first, envs) == Outcome(now, Taken, Untouched)
  {}

  lemma OneMoreAttempt(d: Dir, name: string, first: nat, envs: seq<Surroundings>, now: Dir, env: Surroundings)
    requires AllTakenSoFar(d, name, first, envs, now)
    ensures var candidate := Candidate(name, first + |envs|);
            var out, made := Attempted(now, candidate, env), Tries(d, name, first, envs + [env]);
            && Created(d, name, first, envs + [env]) == out
            && (out.result.Claimed? ==> ClaimsFirstFree(name, first, made, candidate))
            && ClaimedBy(out.effect) == (if out.result.Claimed? then Some(candidate) else None)
            && (out.result.Taken? ==> out.effect.Untouched? && AllTakenSoFar(d, name, first, envs + [env], out.dir))
  {
    AllTakenThen(d, name, first, envs, now);
    AttemptedEnds(now, Candidate(name, first + |envs|), env);
    hide Candidate, AfterOthers, Attempted, AllTaken, ClaimsFirstFree, ClaimedBy;
    assert (envs + [env])[..|envs|] == envs;
    OneMoreTry(name, first, Tries(d, name, first, envs),
               Attempt(Candidate(name, first + |envs|), AfterOthers(now, env.before).entries.Keys));
  }

  /** How an attempt ends, by whether its candidate was there. */
  lemma AttemptedEnds(d: Dir, name: string, env: Surroundings)
    ensures var out := Attempted(d, name, env);
            && (out.result.Claimed? ==> name !in AfterOthers(d, env.before).entries)
            && (out.result.Taken? ==> name in AfterOthers(d, env.before).entries && out.effect.Untouched?)
            && ClaimedBy(out.effect) == if out.result.Claimed? then Some(name) else None
  {
    hide AfterOthers;
  }

  lemma OneMoreTry(name: string, first: nat, made: seq<Attempt>, attempt: Attempt)
    requires AllTaken(name, first, made) && attempt.name == Candidate(name, first + |made|)
    ensures if attempt.name in attempt.present then AllTaken(name, first, made + [attempt])
            else ClaimsFirstFree(name, first, made + [attempt], attempt.name)
  {
    hide Candidate;
    assert (made + [attempt])[..|made|] == made;
  }

  /** As many names are met as candidates are found taken. */
  lemma AllTakenMet(name: string, first: nat, made: seq<Attempt>)
    requires AllTaken(name, first, made)
    ensures |Met(made)| >= |made|
  {
    forall n | first <= n < first + |made|
      ensures Candidate(name, n) in Met(made)
    {
      assert made[n - first].name == Candidate(name, n);
      InMet(made, n - first, Candidate(name, n));
    }
    ManyCandidates(name, first, first + |made|, Met(made));
  }

  /** Every name seen in the directory at some attempt. */
  ghost function Met(made: seq<Attempt>): set<string> {
    if made == [] then {} else Met(made[..|made| - 1]) + made[|made| - 1].present
  }

  lemma {:induction false} InMet(made: seq<Attempt>, k: nat, name: string)
    requires k < |made| && name in made[k].present
    ensures name in Met(made)
    decreases |made|
  {
    if k < |made| - 1 { InMet(made[..|made| - 1], k, name); }
  }

  /** The attempts are the candidates in turn, and each was taken when it was tried. */
  ghost predicate AllTaken(name: string, first: nat, made: seq<Attempt>) {
    forall k :: 0 <= k < |made| ==> made[k].name == Candidate(name, first + k) && made[k].name in made[k].present
  }

  /** The candidate claimed was free at its attempt, and every one before it taken at its own. */
  ghost predicate ClaimsFirstFree(name: string, first: nat, made: seq<Attempt>, claimed: string) {
    && made != [] && AllTaken(name, first, made[..|made| - 1])
    && claimed == made[|made| - 1].name == Candidate(name, first + |made| - 1)
    && claimed !in made[|made| - 1].present
  }
}
