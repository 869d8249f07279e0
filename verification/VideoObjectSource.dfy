/** The v3 object source: authenticated frames behind a two-frame, least-recently-used plaintext cache. */
module VideoObjectSource {
  import opened Common
  import opened FramedBytes

  // ---- The two-frame cache, on values -----------------------------------------------------

  /** The frames cached, most recently used first, after frame `index` has been asked for. */
  function Touched(recent: seq<nat>, index: nat): seq<nat> {
    if recent == [] then [index]
    else if recent[0] == index then recent
    else [index, recent[0]]
  }

  /** Runs the requests through the cache and returns the frames decrypted, in order. */
  function Decrypted(recent: seq<nat>, requests: seq<nat>): seq<nat>
    decreases |requests|
  {
    if requests == [] then []
    else (if requests[0] in recent then [] else [requests[0]]) + Decrypted(Touched(recent, requests[0]), requests[1..])
  }

  function TouchedAll(recent: seq<nat>, requests: seq<nat>): seq<nat>
    decreases |requests|
  {
    if requests == [] then recent else TouchedAll(Touched(recent, requests[0]), requests[1..])
  }

  lemma {:induction false} OneMoreRequest(recent: seq<nat>, requests: seq<nat>, index: nat)
    ensures var now := TouchedAll(recent, requests);
            && TouchedAll(recent, requests + [index]) == Touched(now, index)
            && Decrypted(recent, requests + [index]) ==
               Decrypted(recent, requests) + if index in now then [] else [index]
    decreases |requests|
  {
    if requests == [] {
      assert ([] + [index])[1..] == [];
      assert Decrypted(recent, [index]) == (if index in recent then [] else [index]) + Decrypted(Touched(recent, index), []);
      assert [] + [index] == [index];
    } else {
      var r, next := requests[0], Touched(recent, requests[0]);
      OneMoreRequest(next, requests[1..], index);
      hide Touched;
      var more := requests + [index];
      assert more[0] == r && more[1..] == requests[1..] + [index];
      var first := if r in recent then [] else [r];
      assert Decrypted(recent, more) == first + Decrypted(next, more[1..]);
      assert Decrypted(recent, requests) == first + Decrypted(next, requests[1..]);
    }
  }

  /** Requests that never step back, all between frames `lo` and `hi`. */
  predicate InSpan(requests: seq<nat>, lo: nat, hi: nat) {
    && (forall i, j :: 0 <= i < j < |requests| ==> requests[i] <= requests[j])
    && (forall i :: 0 <= i < |requests| ==> lo <= requests[i] <= hi)
  }

  lemma SpanAppend(requests: seq<nat>, lo: nat, mid: nat, x: nat, hi: nat)
    requires requests == [] || InSpan(requests, lo, mid)
    requires lo <= x <= hi && (requests != [] ==> mid <= x)
    ensures InSpan(requests + [x], lo, hi)
  {}

  lemma SpanGrows(requests: seq<nat>, limit: Positive, offset: nat, n: nat, more: nat)
    requires more > 0
    requires if n == 0 then requests == [] else InSpan(requests, PieceAt(limit, offset), PieceAt(limit, offset + n - 1))
    ensures InSpan(requests + [PieceAt(limit, offset + n)], PieceAt(limit, offset), PieceAt(limit, offset + n + more - 1))
  {
    hide InSpan, PieceAt;
    PieceMonotone(offset, offset + n, limit);
    PieceMonotone(offset + n, offset + n + more - 1, limit);
    var mid := if n == 0 then 0 else PieceAt(limit, offset + n - 1);
    if n > 0 { PieceMonotone(offset + n - 1, offset + n, limit); }
    SpanAppend(requests, PieceAt(limit, offset), mid, PieceAt(limit, offset + n), PieceAt(limit, offset + n + more - 1));
  }

  predicate StrictlyAscending(s: seq<nat>) {
    forall i, j :: 0 <= i < j < |s| ==> s[i] < s[j]
  }

  predicate AllAbove(s: seq<nat>, x: nat) {
    forall i :: 0 <= i < |s| ==> x < s[i]
  }

  lemma PrependAscending(x: nat, s: seq<nat>)
    requires StrictlyAscending(s) && AllAbove(s, x)
    ensures StrictlyAscending([x] + s)
  {}

  /** A forward scan decrypts no frame twice. */
  lemma {:induction false} ForwardScanDecryptsOnce(recent: seq<nat>, requests: seq<nat>)
    requires |recent| <= 2 && (|recent| == 2 ==> recent[1] < recent[0])
    requires forall i, j :: 0 <= i < j < |requests| ==> requests[i] <= requests[j]
    requires recent != [] && requests != [] ==> recent[0] <= requests[0]
    ensures StrictlyAscending(Decrypted(recent, requests))
    ensures recent != [] ==> AllAbove(Decrypted(recent, requests), recent[0])
    decreases |requests|
  {
    if requests != [] {
      var r, next := requests[0], Touched(recent, requests[0]);
      assert next[0] == r;
      ForwardScanDecryptsOnce(next, requests[1..]);
      var later := Decrypted(next, requests[1..]);
      if r in recent {
        assert Decrypted(recent, requests) == [] + later == later;
      } else {
        PrependAscending(r, later);
        hide StrictlyAscending;
        assert Decrypted(recent, requests) == [r] + later;
      }
    }
  }

  lemma SpansJoin(limit: Positive, position: nat, more: nat, first: seq<nat>, second: seq<nat>)
    requires position > 0 && more > 0
    requires InSpan(first, PieceAt(limit, 0), PieceAt(limit, position - 1))
    requires InSpan(second, PieceAt(limit, position), PieceAt(limit, position + more - 1))
    ensures InSpan(first + second, PieceAt(limit, 0), PieceAt(limit, position + more - 1))
  {
    hide PieceAt;
    PieceMonotone(0, position, limit);
    PieceMonotone(position - 1, position, limit);
    PieceMonotone(position - 1, position + more - 1, limit);
  }

  lemma ScanAscends(requests: seq<nat>, lo: nat, hi: nat)
    requires InSpan(requests, lo, hi)
    ensures StrictlyAscending(Decrypted([], requests))
  {
    ForwardScanDecryptsOnce([], requests);
  }

  function Total(sizes: seq<nat>): nat {
    if sizes == [] then 0 else Total(sizes[..|sizes| - 1]) + sizes[|sizes| - 1]
  }

  lemma TotalSnoc(sizes: seq<nat>, i: nat)
    requires i < |sizes|
    ensures Total(sizes[..i + 1]) == Total(sizes[..i]) + sizes[i]
  {
    assert sizes[..i + 1][..i] == sizes[..i];
  }

  // ---- v3 objects: authenticated frames ---------------------------------------------------

  const UINT32_MAX: nat := 0xFFFF_FFFF
  const MAX_FRAMES: nat := 1024 * 1024

  /** An opened object. `frames[i]` is what decrypting and authenticating frame i yields, if anything. */
  datatype ObjectReader = ObjectReader(plaintextLength: nat, frameLimit: Positive, frames: seq<Option<seq<byte>>>) {
    predicate Holds(data: seq<byte>) {
      |data| == plaintextLength && |frames| <= MAX_FRAMES && Sound(frames, data, frameLimit)
    }
  }

  /** A read after `n` bytes: they are there, they all authenticated, and the frames asked for are those
      over them, in order. */
  predicate CopiedSoFar(r: ObjectReader, data: seq<byte>, offset: nat, before: seq<byte>, now: seq<byte>, at: nat,
                        n: nat, asked: seq<nat>) {
    && Delivered(data, offset, before, now, at, n)
    && Covered(r.frames, r.frameLimit, offset, n)
    && if n == 0 then asked == []
       else InSpan(asked, PieceAt(r.frameLimit, offset), PieceAt(r.frameLimit, offset + n - 1))
  }

  lemma NothingCopied(r: ObjectReader, data: seq<byte>, offset: nat, buffer: seq<byte>, at: nat)
    requires at <= |buffer|
    ensures CopiedSoFar(r, data, offset, buffer, buffer, at, 0, [])
  {
    NothingToCover(r.frames, r.frameLimit, offset);
    DeliverNone(data, offset, buffer, at);
    hide Delivered, Covered;
  }

  lemma PieceCopied(r: ObjectReader, data: seq<byte>, offset: nat, before: seq<byte>, mid: seq<byte>, now: seq<byte>,
                    at: nat, n: nat, more: nat, asked: seq<nat>)
    requires r.Holds(data) && CopiedSoFar(r, data, offset, before, mid, at, n, asked) && offset + n < |data|
    requires more > 0 && Delivered(data, offset + n, mid, now, at + n, more)
    requires Readable(r.frames, r.frameLimit, offset + n)
    requires WithinPiece(r.frameLimit, offset + n) + more <= PieceLength(r.frames, r.frameLimit, offset + n)
    ensures CopiedSoFar(r, data, offset, before, now, at, n + more, asked + [PieceAt(r.frameLimit, offset + n)])
  {
    DeliverMore(data, offset, before, mid, now, at, n, more);
    CoverMore(r.frames, data, r.frameLimit, offset, n, more);
    SpanGrows(asked, r.frameLimit, offset, n, more);
    hide Delivered, Covered, Sound, InSpan, PieceAt, WithinPiece, Readable;
  }

  lemma AllCopied(r: ObjectReader, data: seq<byte>, offset: nat, before: seq<byte>, now: seq<byte>, at: nat, n: nat,
                  asked: seq<nat>)
    ensures CopiedSoFar(r, data, offset, before, now, at, n, asked) <==>
              && Delivered(data, offset, before, now, at, n)
              && Covered(r.frames, r.frameLimit, offset, n)
              && if n == 0 then asked == []
                 else InSpan(asked, PieceAt(r.frameLimit, offset), PieceAt(r.frameLimit, offset + n - 1))
  {
    hide Delivered, Covered, InSpan, PieceAt;
  }

  datatype Status = Ok | IoError | Failure

  datatype CacheEntry = CacheEntry(index: nat, valid: bool, stamp: nat, bytes: seq<byte>)

  class ObjectSource {
    const reader: ObjectReader
    var cache: seq<CacheEntry>       // two entries
    var stamp: nat
    var cancelled: bool
    var lastStatus: Status
    var lastErrorFrame: nat
    ghost var requests: seq<nat>     // every frame asked of the cache and served, oldest first
    ghost var decrypts: seq<nat>     // every frame decrypted, oldest first
    ghost var cancels: nat           // how often another thread has cancelled meanwhile
    ghost var disturbed: bool        // a failed frame or a cancellation has emptied cache entries

    /** Two entries; a valid one holds its frame as the object has it; the stamps tell the older. */
    ghost predicate Valid() reads `cache, `stamp {
      && |cache| == 2
      && (forall i :: 0 <= i < 2 && cache[i].valid ==>
            && cache[i].index < |reader.frames|
            && reader.frames[cache[i].index] == Some(cache[i].bytes)
            && cache[i].stamp <= stamp)
      && (cache[0].valid && cache[1].valid ==>
            cache[0].index != cache[1].index && cache[0].stamp != cache[1].stamp)
    }

    /** Until disturbed, the frames decrypted are exactly the misses of a two-entry LRU cache. */
    ghost predicate Accounted()
      requires Valid()
      reads `cache, `stamp, `requests, `decrypts, `disturbed
    {
      !disturbed ==> Recent() == TouchedAll([], requests) && decrypts == Decrypted([], requests)
    }

    /** The cached frames, most recently used first. */
    ghost function Recent(): seq<nat>
      requires Valid()
      reads `cache, `stamp
    {
      if cache[0].valid && cache[1].valid then
        if cache[0].stamp > cache[1].stamp then [cache[0].index, cache[1].index] else [cache[1].index, cache[0].index]
      else if cache[0].valid then [cache[0].index]
      else if cache[1].valid then [cache[1].index]
      else []
    }

    /** No plaintext is left in the cache. */
    ghost predicate Wiped() reads `cache { forall i :: 0 <= i < |cache| ==> !cache[i].valid && cache[i].bytes == [] }

    constructor (reader: ObjectReader)
      ensures Valid() && Accounted() && this.reader == reader && !cancelled && !disturbed && requests == []
    {
      this.reader := reader;
      cache := [CacheEntry(0, false, 0, []), CacheEntry(0, false, 0, [])];
      stamp, cancelled, lastStatus, lastErrorFrame := 0, false, Ok, 0;
      requests, decrypts, cancels, disturbed := [], [], 0, false;
    }

    method ClearCache()
      requires Valid()
      modifies `cache, `disturbed
      ensures Valid() && Recent() == [] && disturbed && Accounted() && Wiped()
    {
      disturbed := true;
      for i := 0 to 2
        invariant |cache| == 2 && Valid() && disturbed
        invariant forall j :: 0 <= j < i ==> !cache[j].valid && cache[j].bytes == []
      {
        cache := cache[i := cache[i].(bytes := [], valid := false)];
      }
    }

    method FindSlot(index: nat) returns (slot: Option<nat>)
      requires Valid()
      ensures slot.None? ==> index !in Recent()
      ensures slot.Some? ==> slot.value < 2 && cache[slot.value].valid && cache[slot.value].index == index
      ensures slot.Some? ==> index in Recent()
    {
      for i := 0 to 2
        invariant forall j :: 0 <= j < i ==> !(cache[j].valid && cache[j].index == index)
      {
        if cache[i].valid && cache[i].index == index { return Some(i); }
      }
      slot := None;
    }

    /** The slot holding frame `index` afterwards, or none when it cannot be decrypted. A miss gives up
        the older frame first, so a failed one leaves only the newer behind. */
    method LoadFrame(index: nat) returns (slot: Option<nat>)
      requires Valid()
      modifies `cache, `stamp, `lastStatus, `lastErrorFrame, `requests, `decrypts, `disturbed
      ensures Valid() && (old(Accounted()) ==> Accounted()) && (old(disturbed) ==> disturbed)
      ensures slot.None? <==> index >= |reader.frames| || reader.frames[index].None?
      ensures slot.Some? ==>
                && slot.value < 2 && cache[slot.value].valid && cache[slot.value].index == index
                && reader.frames[index] == Some(cache[slot.value].bytes)
                && Recent() == Touched(old(Recent()), index)
                && requests == old(requests) + [index] && disturbed == old(disturbed)
                && decrypts == old(decrypts) + if index in old(Recent()) then [] else [index]
      ensures slot.None? ==> disturbed && decrypts == old(decrypts) && Recent() == old(Recent())[..Min(1, |old(Recent())|)]
    {
      hide TouchedAll, Decrypted, Touched, Recent;
      slot := FindSlot(index);
      if slot.Some? {
        MarkUsed(slot.value, index);
        return;
      }
      slot := FillOlder(index);
    }

    method MarkUsed(slot: nat, index: nat)
      requires Valid() && slot < 2 && cache[slot].valid && cache[slot].index == index
      modifies `cache, `stamp, `requests
      ensures Valid() && (old(Accounted()) ==> Accounted())
      ensures cache[slot].valid && cache[slot].index == index
      ensures Recent() == Touched(old(Recent()), index) && requests == old(requests) + [index]
    {
      hide TouchedAll, Decrypted;
      stamp := stamp + 1;
      cache := cache[slot := cache[slot].(stamp := stamp)];
      OneMoreRequest([], requests, index);
      requests := requests + [index];
    }

    method FillOlder(index: nat) returns (slot: Option<nat>)
      requires Valid() && index !in Recent()
      modifies `cache, `stamp, `lastStatus, `lastErrorFrame, `requests, `decrypts, `disturbed
      ensures Valid() && (old(Accounted()) ==> Accounted()) && (old(disturbed) ==> disturbed)
      ensures slot.None? <==> index >= |reader.frames| || reader.frames[index].None?
      ensures slot.Some? ==>
                && slot.value < 2 && cache[slot.value].valid && cache[slot.value].index == index
                && Recent() == Touched(old(Recent()), index)
                && requests == old(requests) + [index] && disturbed == old(disturbed)
                && decrypts == old(decrypts) + [index]
      ensures slot.None? ==> disturbed && decrypts == old(decrypts) && Recent() == old(Recent())[..Min(1, |old(Recent())|)]
    {
      hide TouchedAll, Decrypted;
      var target := 0;
      if cache[0].valid && (!cache[1].valid || cache[1].stamp < cache[0].stamp) { target := 1; }
      cache := cache[target := cache[target].(bytes := [], valid := false)];
      if index >= |reader.frames| || reader.frames[index].None? {
        lastStatus, lastErrorFrame, disturbed := Failure, index, true;
        return None;
      }
      lastStatus := Ok;
      stamp := stamp + 1;
      cache := cache[target := CacheEntry(index, true, stamp, reader.frames[index].value)];
      OneMoreRequest([], requests, index);
      requests, decrypts := requests + [index], decrypts + [index];
      slot := Some(target);
    }

    /** Another thread may cancel between any two frames. */
    method PollCancelled() returns (c: bool)
      modifies `cancelled, `cancels
      ensures cancels >= old(cancels) && c == cancelled == (old(cancelled) || cancels > old(cancels))
    {
      var now := *;
      if now { cancelled, cancels := true, cancels + 1; }
      c := cancelled;
    }

    /** A cancelled read leaves no plaintext behind. */
    method StopIfCancelled() returns (stopped: bool)
      requires Valid()
      modifies `cancelled, `cancels, `cache, `disturbed, `lastStatus
      ensures Valid() && (old(Accounted()) ==> Accounted())
      ensures cancels >= old(cancels) && stopped == cancelled == (old(cancelled) || cancels > old(cancels))
      ensures if stopped then Wiped() else cache == old(cache) && disturbed == old(disturbed)
    {
      hide TouchedAll, Decrypted;
      stopped := PollCancelled();
      if stopped {
        ClearCache();
        lastStatus := IoError;
      }
    }

    /** Never plaintext that did not authenticate: the bytes asked for, or -1, and -1 only when
        cancelled or when one of the frames asked for does not decrypt. */
    method Read(ghost data: seq<byte>, offset: nat, out: array<byte>, at: nat, n: nat)
      returns (code: int, ghost asked: seq<nat>)
      requires Valid() && reader.Holds(data) && at + n <= out.Length
      modifies this, out
      ensures Valid() && (old(Accounted()) ==> Accounted())
      ensures cancels >= old(cancels) && cancelled == (old(cancelled) || cancels > old(cancels))
      ensures code == -1 <==> cancelled || !Covered(reader.frames, reader.frameLimit, offset, Wanted(data, offset, n))
      ensures code != -1 ==>
                && code == Wanted(data, offset, n)
                && Delivered(data, offset, old(out[..]), out[..], at, code)
                && disturbed == old(disturbed) && requests == old(requests) + asked
                && if code == 0 then asked == []
                   else InSpan(asked, PieceAt(reader.frameLimit, offset), PieceAt(reader.frameLimit, offset + code - 1))
    {
      assert reader.plaintextLength == |data|;
      assert Wanted(data, offset, n) == if offset >= |data| then 0 else Min(n, |data| - offset);
      hide Sound, Covered, Delivered, InSpan, PieceAt, Readable, CopiedSoFar;
      NothingCopied(reader, data, offset, out[..], at);
      AllCopied(reader, data, offset, out[..], out[..], at, 0, []);
      hide *;
      var stopped := StopIfCancelled();
      if stopped { return -1, []; }
      var total := reader.plaintextLength;
      if offset >= total || n == 0 { return 0, []; }
      code, asked := CopyFrames(data, offset, out, at, if n < total - offset then n else total - offset);
      if code != -1 { AllCopied(reader, data, offset, old(out[..]), out[..], at, code, asked); }
    }

    /** The copy loop. */
    method CopyFrames(ghost data: seq<byte>, offset: nat, out: array<byte>, at: nat, wanted: nat)
      returns (code: int, ghost asked: seq<nat>)
      requires Valid() && !cancelled && reader.Holds(data)
      requires at + wanted <= out.Length && offset + wanted <= |data| && wanted > 0
      modifies this, out
      ensures Valid() && (old(Accounted()) ==> Accounted())
      ensures cancels >= old(cancels) && cancelled == (cancels > old(cancels))
      ensures code == -1 <==> cancelled || !Covered(reader.frames, reader.frameLimit, offset, wanted)
      ensures code != -1 ==>
                && code == wanted && disturbed == old(disturbed) && requests == old(requests) + asked
                && CopiedSoFar(reader, data, offset, old(out[..]), out[..], at, wanted, asked)
    {
      hide Sound, Covered, Delivered, InSpan, PieceAt, Readable, CopiedSoFar;
      NothingCopied(reader, data, offset, out[..], at);
      hide *;
      asked := [];
      var copied := 0;
      while copied < wanted
        invariant Valid() && !cancelled && cancels == old(cancels) && (old(Accounted()) ==> Accounted())
        invariant disturbed == old(disturbed) && requests == old(requests) + asked
        invariant 0 <= copied <= wanted
        invariant CopiedSoFar(reader, data, offset, old(out[..]), out[..], at, copied, asked)
      {
        var stopped := StopIfCancelled();
        if stopped { return -1, []; }
        FailsAt(reader.frames, reader.frameLimit, offset, wanted, offset + copied);
        ghost var mid := out[..];
        var take := ReadPiece(data, offset + copied, out, at + copied, wanted - copied);
        if take < 0 { return -1, []; }
        PieceCopied(reader, data, offset, old(out[..]), mid, out[..], at, copied, take, asked);
        asked := asked + [PieceAt(reader.frameLimit, offset + copied)];
        copied := copied + take;
      }
      AllCopied(reader, data, offset, old(out[..]), out[..], at, copied, asked);
      lastStatus := Ok;
      code := copied;
    }

    lemma FewFrames(data: seq<byte>)
      requires reader.Holds(data)
      ensures |reader.frames| <= MAX_FRAMES
    {}

    static lemma LookAt(pieces: seq<Option<seq<byte>>>, limit: Positive, position: nat)
      ensures Readable(pieces, limit, position) <==>
              PieceAt(limit, position) < |pieces| && pieces[PieceAt(limit, position)].Some?
      ensures Readable(pieces, limit, position) ==>
                PieceLength(pieces, limit, position) == |pieces[PieceAt(limit, position)].value|
    {
      hide PieceAt;
    }

    /** One round of the copy loop: what the frame holding `position` can give. */
    method ReadPiece(ghost data: seq<byte>, position: nat, out: array<byte>, at: nat, n: nat) returns (take: int)
      requires Valid() && reader.Holds(data) && position + n <= |data| && n > 0 && at + n <= out.Length
      modifies `cache, `stamp, `lastStatus, `lastErrorFrame, `requests, `decrypts, `disturbed, out
      ensures Valid() && (old(Accounted()) ==> Accounted())
      ensures take == -1 <==> !Readable(reader.frames, reader.frameLimit, position)
      ensures take != -1 ==>
                && 0 < take <= n
                && disturbed == old(disturbed) && requests == old(requests) + [PieceAt(reader.frameLimit, position)]
                && Delivered(data, position, old(out[..]), out[..], at, take)
                && WithinPiece(reader.frameLimit, position) + take <= PieceLength(reader.frames, reader.frameLimit, position)
    {
      InPiece(reader.frames, data, reader.frameLimit, position);
      FewFrames(data);
      hide *;
      var frame := PieceAt(reader.frameLimit, position);
      if frame > UINT32_MAX { return -1; }
      var slot := LoadFrame(frame);
      LookAt(reader.frames, reader.frameLimit, position);
      if slot.None? { return -1; }
      var bytes := cache[slot.value].bytes;
      var within := WithinPiece(reader.frameLimit, position);
      if within >= |bytes| { return -1; }
      take := Min(n, |bytes| - within);
      CopyOut(bytes, within, out, at, take);
      DeliverPiece(data, position, bytes, within, old(out[..]), out[..], at, take);
    }

    /** A demuxer reading on without seeking, from a freshly opened source: as long as the reads succeed,
        each gives the next bytes of the plaintext, and no frame is decrypted twice. */
    method ReadForward(ghost data: seq<byte>, out: array<byte>, sizes: seq<nat>) returns (ok: bool, position: nat)
      requires Valid() && Accounted() && !disturbed && requests == [] && reader.Holds(data)
      requires forall i :: 0 <= i < |sizes| ==> sizes[i] <= out.Length
      modifies this, out
      ensures Valid()
      ensures ok ==> StrictlyAscending(decrypts) && position == Min(Total(sizes), |data|)
      ensures !ok ==> cancelled || !Covered(reader.frames, reader.frameLimit, 0, |data|)
    {
      hide Covered, Delivered, InSpan, PieceAt, Sound;
      ok, position := true, 0;
      for i := 0 to |sizes|
        invariant Valid() && Accounted() && !disturbed
        invariant position == Min(Total(sizes[..i]), |data|)
        invariant if position == 0 then requests == []
                  else InSpan(requests, PieceAt(reader.frameLimit, 0), PieceAt(reader.frameLimit, position - 1))
      {
        ghost var before := requests;
        var code, asked := Read(data, position, out, 0, sizes[i]);
        if code == -1 {
          CoveredPart(reader.frames, reader.frameLimit, |data|, position, Wanted(data, position, sizes[i]));
          return false, position;
        }
        TotalSnoc(sizes, i);
        if position > 0 && code > 0 {
          SpansJoin(reader.frameLimit, position, code, before, asked);
        }
        if code == 0 { assert before + asked == before; } else if position == 0 { assert before + asked == asked; }
        position := position + code;
      }
      assert sizes[..|sizes|] == sizes;
      ScanAscends(requests, if position == 0 then 0 else PieceAt(reader.frameLimit, 0),
                  if position == 0 then 0 else PieceAt(reader.frameLimit, position - 1));
    }

    method Cancel()
      requires Valid()
      modifies this
      ensures Valid() && cancelled && Recent() == [] && Wiped() && (old(Accounted()) ==> Accounted())
    {
      cancelled := true;
      ClearCache();
    }
  }
}
