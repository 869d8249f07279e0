/** Open readers kept by buffer identity during a recursive import: the address and size of the archive's
    bytes. That names an archive only while the buffer lives, so the walker drops the reader first. */
module ArchiveReaderCache {
  import opened Common

  datatype Key = Key(address: nat, size: nat)

  type Buffer = seq<byte>

  // ---- Runs of the walker, on values --------------------------------------------------------------

  /** Buffers alive, the bytes each cached reader copied when it was opened, and how often one was opened
      and evicted. */
  datatype State = State(live: map<Key, Buffer>, readers: map<Key, Buffer>, opens: nat, evictions: nat)

  /** What the walker does: an archive's buffer appears, a reader is asked for (an open may be refused),
      the archive is done, its buffer is freed. */
  datatype Event =
    | Allocate(key: Key, bytes: Buffer)
    | Get(key: Key, accepted: bool)
    | Drop(key: Key)
    | Free(key: Key)

  predicate Possible(s: State, e: Event) {
    match e
    case Allocate(key, bytes) => key !in s.live && |bytes| == key.size
    case Get(key, accepted) => key in s.live
    case Drop(key) => key in s.live
    case Free(key) => key in s.live
  }

  function Step(s: State, e: Event): State
    requires Possible(s, e)
  {
    match e
    case Allocate(key, bytes) => s.(live := s.live[key := bytes])
    case Get(key, accepted) =>
      if key in s.readers || !accepted then s
      else s.(readers := s.readers[key := s.live[key]], opens := s.opens + 1)
    case Drop(key) =>
      if key in s.readers then s.(readers := s.readers - {key}, evictions := s.evictions + 1) else s
    case Free(key) => s.(live := s.live - {key})
  }

  /** The bytes of the archive a `Get` is served from, if it is served. */
  function Served(s: State, key: Key, accepted: bool): Option<Buffer>
    requires key in s.live
  {
    if key in s.readers then Some(s.readers[key]) else if accepted then Some(s.live[key]) else None
  }

  /** The walker's side: no buffer is freed while a reader is cached for it. */
  predicate Disciplined(s: State, e: Event) { e.Free? ==> e.key !in s.readers }

  predicate Runs(s: State, events: seq<Event>)
    decreases |events|
  {
    events == [] || (Possible(s, events[0]) && Runs(Step(s, events[0]), events[1..]))
  }

  predicate KeepsDiscipline(s: State, events: seq<Event>)
    requires Runs(s, events)
    decreases |events|
  {
    events == [] || (Disciplined(s, events[0]) && KeepsDiscipline(Step(s, events[0]), events[1..]))
  }

  function After(s: State, events: seq<Event>): State
    requires Runs(s, events)
    decreases |events|
  {
    if events == [] then s else After(Step(s, events[0]), events[1..])
  }

  function Drops(events: seq<Event>): nat {
    if events == [] then 0 else (if events[0].Drop? then 1 else 0) + Drops(events[1..])
  }

  const INITIAL: State := State(map[], map[], 0, 0)

  /** Every cached reader is for a live buffer and holds that buffer's bytes. */
  predicate Faithful(s: State) {
    && (forall k :: k in s.readers ==> k in s.live && s.readers[k] == s.live[k])
    && s.opens == |s.readers| + s.evictions
  }

  /** It stays so exactly under the discipline. */
  lemma StepStaysFaithfulIff(s: State, e: Event)
    requires Faithful(s) && Possible(s, e)
    ensures Faithful(Step(s, e)) <==> Disciplined(s, e)
  {
    if e.Drop? && e.key in s.readers {
      assert s.readers.Keys == (s.readers - {e.key}).Keys + {e.key};
    }
  }

  /** With the discipline, whatever the walker does, a reader served is always one of the buffer asked
      about; and readers are opened once each: as many as are cached or were evicted. */
  lemma {:induction false} ServesTheRightArchive(s: State, events: seq<Event>, key: Key, accepted: bool)
    requires Faithful(s) && Runs(s, events) && KeepsDiscipline(s, events)
    ensures var t := After(s, events);
            && Faithful(t)
            && (key in t.live && Served(t, key, accepted).Some? ==> Served(t, key, accepted).value == t.live[key])
    decreases |events|
  {
    if events != [] {
      StepStaysFaithfulIff(s, events[0]);
      ServesTheRightArchive(Step(s, events[0]), events[1..], key, accepted);
    }
  }

  lemma {:induction false} EvictionsAreDrops(s: State, events: seq<Event>)
    requires Runs(s, events)
    ensures After(s, events).evictions <= s.evictions + Drops(events)
    decreases |events|
  {
    if events != [] { EvictionsAreDrops(Step(s, events[0]), events[1..]); }
  }

  /** So an import that drops each archive once, when it is done, opens no more readers than it meets
      archives, however many entries it extracts. */
  lemma OpensAreBounded(events: seq<Event>)
    requires Runs(INITIAL, events) && KeepsDiscipline(INITIAL, events)
    ensures var t := After(INITIAL, events);
            t.opens <= |t.live| + Drops(events) && (t.live == map[] ==> t.opens <= Drops(events))
  {
    ServesTheRightArchive(INITIAL, events, Key(0, 0), false);
    EvictionsAreDrops(INITIAL, events);
    var t := After(INITIAL, events);
    SmallerMap(t.readers.Keys, t.live.Keys);
  }

  /** How often a run opens a reader for `key`, and how often it drops it. */
  function OpensOf(s: State, events: seq<Event>, key: Key): nat
    requires Runs(s, events)
    decreases |events|
  {
    if events == [] then 0
    else
      var e := events[0];
      (if e == Get(key, true) && key !in s.readers then 1 else 0) + OpensOf(Step(s, e), events[1..], key)
  }

  function DropsOf(events: seq<Event>, key: Key): nat {
    if events == [] then 0 else (if events[0] == Drop(key) then 1 else 0) + DropsOf(events[1..], key)
  }

  /** However often an archive's reader is asked for, it is opened at most once between two drops: once in
      all when it is never dropped, and not at all when it was cached before. */
  lemma {:induction false} OpenedOncePerDrop(s: State, events: seq<Event>, key: Key)
    requires Runs(s, events)
    ensures OpensOf(s, events, key) + (if key in s.readers then 1 else 0) <=
            DropsOf(events, key) + (if key in After(s, events).readers then 1 else 0)
    decreases |events|
  {
    if events != [] {
      OpenedOncePerDrop(Step(s, events[0]), events[1..], key);
    }
  }

  lemma SmallerMap<T>(a: set<T>, b: set<T>)
    requires a <= b
    ensures |a| <= |b|
  {
    assert b == a + (b - a);
  }

  /** Without it, any two archives of one size at one address: freeing the first undropped serves its
      reader for the second. */
  lemma StaleReaderWithoutDrop(address: nat, first: Buffer, second: Buffer)
    requires |first| == |second|
    ensures var key := Key(address, |first|);
            var events := [Allocate(key, first), Get(key, true), Free(key), Allocate(key, second)];
            && Runs(INITIAL, events) && !KeepsDiscipline(INITIAL, events)
            && key in After(INITIAL, events).live && Served(After(INITIAL, events), key, true) == Some(first)
  {
    var key := Key(address, |first|);
    var s1 := Step(INITIAL, Allocate(key, first));
    var s2 := Step(s1, Get(key, true));
    var s3 := Step(s2, Free(key));
    var s4 := Step(s3, Allocate(key, second));
    var e4 := [Allocate(key, second)];
    var e3 := [Free(key), Allocate(key, second)];
    var e2 := [Get(key, true), Free(key), Allocate(key, second)];
    var e1 := [Allocate(key, first), Get(key, true), Free(key), Allocate(key, second)];
    assert e4[1..] == [] && e3[1..] == e4 && e2[1..] == e3 && e1[1..] == e2;
    assert Runs(s3, e4) && Runs(s2, e3) && Runs(s1, e2) && Runs(INITIAL, e1);
    assert After(s3, e4) == s4 && After(s2, e3) == s4 && After(s1, e2) == s4 && After(INITIAL, e1) == s4;
    assert !KeepsDiscipline(s2, e3) && !KeepsDiscipline(s1, e2);
  }

  // ---- The cache object ---------------------------------------------------------------------------

  /** An opened reader: its own copy of the archive. */
  datatype Reader = Reader(bytes: Buffer)

  class Cache {
    var readers: map<Key, Reader>
    var opens: nat
    ghost var refusals: nat          // how often a reader could not be opened

    ghost function Abs(live: map<Key, Buffer>, evictions: nat): State reads this {
      State(live, map k | k in readers :: readers[k].bytes, opens, evictions)
    }

    constructor ()
      ensures Abs(map[], 0) == INITIAL
    {
      readers, opens, refusals := map[], 0, 0;
    }

    /** ArchiveReader::open may refuse; failures are not cached. */
    method Open(bytes: Buffer) returns (r: Option<Reader>)
      modifies `refusals
      ensures refusals == old(refusals) + if r.Some? then 0 else 1
      ensures r.Some? ==> r.value.bytes == bytes
    {
      var accepted := *;
      if !accepted { refusals := refusals + 1; }
      r := if accepted then Some(Reader(bytes)) else None;
    }

    method Get(ghost live: map<Key, Buffer>, ghost evictions: nat, address: nat, bytes: Buffer) returns (r: Option<Reader>)
      requires Key(address, |bytes|) in live && live[Key(address, |bytes|)] == bytes
      modifies this
      ensures var key := Key(address, |bytes|);
              && Abs(live, evictions) == Step(old(Abs(live, evictions)), Event.Get(key, r.Some?))
              && Served(old(Abs(live, evictions)), key, r.Some?) == (if r.Some? then Some(r.value.bytes) else None)
      ensures r.Some? <==> refusals == old(refusals)
      ensures old(Faithful(Abs(live, evictions))) && r.Some? ==> r.value.bytes == bytes
    {
      var key := Key(address, |bytes|);
      if key in readers { return Some(readers[key]); }
      r := Open(bytes);
      if r.None? { return; }
      opens := opens + 1;
      readers := readers[key := r.value];
    }

    method Drop(ghost live: map<Key, Buffer>, ghost evictions: nat, address: nat, bytes: Buffer)
      requires Key(address, |bytes|) in live
      modifies this
      ensures var key := Key(address, |bytes|);
              Abs(live, evictions + if key in old(readers) then 1 else 0)
              == Step(old(Abs(live, evictions)), Event.Drop(key))
    {
      readers := readers - {Key(address, |bytes|)};
    }
  }
}
