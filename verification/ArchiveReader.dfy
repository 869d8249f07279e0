/** Extracting entries from a forward-only archive through one cached stream. An archive is what reading it
    from the start gives, always the same; the libarchive handle is `Stream`. */
module ArchiveReader {
  import opened Common

  const MAX_ENTRIES: nat := 100000
  const MAX_ENTRY_BYTES: int := 4 * 1024 * 1024 * 1024

  // ---- Archives, on values ----------------------------------------------------------------------

  /** How an entry's data ends: cleanly, or with an error that may be about the password. */
  datatype DataEnd = Clean | Broken(passphraseIssue: bool)

  datatype Member = Member(isDir: bool, declared: Option<int>, data: seq<byte>, end: DataEnd)

  datatype HeadersEnd = Eof | Fatal

  datatype Archive = Archive(recognised: bool, members: seq<Member>, end: HeadersEnd)

  datatype Outcome = Extracted(bytes: seq<byte>) | Failed(needsPassword: bool)

  /** What reading one entry to its end gives. `room` says whether the output buffer can be had. */
  function MemberOutcome(m: Member, room: bool): Outcome {
    if m.declared.None? || m.declared.value < 0 || m.declared.value > MAX_ENTRY_BYTES || !room then Failed(false)
    else
      var size := m.declared.value;
      if |m.data| < size then Failed(m.end.Broken? && m.end.passphraseIssue)
      else if |m.data| == size && m.end.Broken? then Failed(m.end.passphraseIssue)
      else Extracted(m.data[..size])
  }

  /** An entry comes out exactly when a size within bounds was declared and could be had, that many bytes are there,
      and what follows them is no error: a damaged end, which a checksum shows only there, is refused. What comes
      out is those bytes. The password is asked for exactly when the data breaks off with an error about it. */
  lemma ExtractedIff(m: Member, room: bool)
    ensures var o := MemberOutcome(m, room);
            var sized := m.declared.Some? && 0 <= m.declared.value <= 4294967296 && room;
            && (o.Extracted? <==> sized && |m.data| >= m.declared.value && (m.end.Clean? || |m.data| > m.declared.value))
            && (o.Extracted? ==> |o.bytes| == m.declared.value && o.bytes <= m.data)
            && (o == Failed(true) <==>
                  sized && m.end == Broken(true) && |m.data| <= m.declared.value)
  {}

  predicate Readable(archive: Archive) {
    archive.recognised && archive.end.Eof? && |archive.members| <= MAX_ENTRIES
  }

  /** What opening the archive anew and scanning to entry `index` gives. */
  function FreshOutcome(archive: Archive, index: nat, room: bool): Outcome {
    if index >= |archive.members| || archive.members[index].isDir then Failed(false)
    else MemberOutcome(archive.members[index], room)
  }

  /** Nothing comes out for an entry that is not there or is a directory; for another, what its bytes give. */
  lemma ExtractsEntries(archive: Archive, index: nat, room: bool)
    ensures FreshOutcome(archive, index, room).Extracted? ==>
              && index < |archive.members| && !archive.members[index].isDir
              && FreshOutcome(archive, index, room).bytes <= archive.members[index].data
    ensures index < |archive.members| && !archive.members[index].isDir && archive.members[index].end.Clean? && room
            && archive.members[index].declared == Some(|archive.members[index].data|)
            && |archive.members[index].data| <= 4294967296 ==>
              FreshOutcome(archive, index, room) == Extracted(archive.members[index].data)
  {
    if index < |archive.members| { ExtractedIff(archive.members[index], room); }
  }

  function Range(lo: nat, hi: nat): (s: seq<nat>)
    requires lo <= hi
    ensures |s| == hi - lo && forall i :: 0 <= i < |s| ==> s[i] == lo + i
  {
    seq(hi - lo, i requires 0 <= i < hi - lo => lo + i)
  }

  // ---- The libarchive handle --------------------------------------------------------------------

  datatype HeaderResult = Entry | EndOfArchive | FatalHeader

  class Stream {
    const archive: Archive
    var next: nat                // headers read so far
    var offset: nat              // into the data of the entry read last

    constructor (archive: Archive)
      ensures this.archive == archive && next == 0
    {
      this.archive, next, offset := archive, 0, 0;
    }

    /** archive_read_next_header: leaves any unread tail of the entry before. */
    method NextHeader() returns (r: HeaderResult)
      modifies this
      ensures if old(next) < |archive.members| then r.Entry? && next == old(next) + 1 && offset == 0
              else next == old(next) && r == if archive.end.Eof? then EndOfArchive else FatalHeader
    {
      if next < |archive.members| {
        next, offset := next + 1, 0;
        return Entry;
      }
      r := if archive.end.Eof? then EndOfArchive else FatalHeader;
    }

    /** archive_read_data: some of what is left, none at a clean end, an error at a broken one. */
    method ReadData(max: nat) returns (n: int, bytes: seq<byte>)
      requires max > 0 && 0 < next <= |archive.members| && offset <= |archive.members[next - 1].data|
      modifies `offset
      ensures var m := archive.members[next - 1];
              if old(offset) < |m.data| then
                0 < n <= max && offset == old(offset) + n <= |m.data| && bytes == m.data[old(offset)..offset]
              else n == (if m.end.Clean? then 0 else -1) && offset == old(offset)
    {
      var m := archive.members[next - 1];
      bytes := [];
      if offset == |m.data| { return if m.end.Clean? then 0 else -1, []; }
      var most := Min(max, |m.data| - offset);
      n := *;
      if n < 1 || n > most { n := most; }
      bytes := m.data[offset..offset + n];
      offset := offset + n;
    }
  }

  // ---- The reader -------------------------------------------------------------------------------

  class Reader {
    var archive: Archive
    var entries: seq<bool>           // is_dir of each entry listed
    var stream: Stream?
    var streamNext: nat
    var streamOpens: nat
    var needsPassword: bool
    ghost var headersRead: seq<nat>  // by extractions, oldest first

    ghost predicate Valid() reads this, stream {
      && (entries == [] || Lists(entries, archive))
      && (stream != null ==>
            stream.archive == archive && Lists(entries, archive) && stream.next == streamNext <= |entries|)
      && (stream == null ==> streamNext == 0)
    }

    static ghost predicate Lists(entries: seq<bool>, archive: Archive) {
      && Readable(archive) && |entries| == |archive.members|
      && forall i :: 0 <= i < |entries| ==> entries[i] == archive.members[i].isDir
    }

    constructor ()
      ensures Valid() && entries == [] && stream == null
    {
      archive, entries := Archive(false, [], Eof), [];
      stream, streamNext, streamOpens, needsPassword, headersRead := null, 0, 0, false, [];
    }

    method ResetStream()
      modifies `stream, `streamNext
      ensures stream == null && streamNext == 0
    {
      stream, streamNext := null, 0;
    }

    method OpenStream() returns (s: Stream?)
      ensures if archive.recognised then s != null && fresh(s) && s.archive == archive && s.next == 0 else s == null
    {
      if !archive.recognised { return null; }
      s := new Stream(archive);
    }

    /** Lists the entries, refusing a broken archive and one with too many. */
    method ScanEntries(a: Stream) returns (ok: bool)
      requires a.archive == archive && archive.recognised && a.next == 0 && entries == []
      modifies a, `entries
      ensures ok <==> Readable(archive)
      ensures ok ==> Lists(entries, archive)
    {
      while true
        invariant a.next == |entries| <= |archive.members| && |entries| <= MAX_ENTRIES
        invariant forall i :: 0 <= i < |entries| ==> entries[i] == archive.members[i].isDir
        decreases |archive.members| - |entries|
      {
        var r := a.NextHeader();
        if r.EndOfArchive? { return true; }
        if r.FatalHeader? { return false; }
        if |entries| >= MAX_ENTRIES { return false; }
        entries := entries + [archive.members[a.next - 1].isDir];
      }
    }

    /** Succeeds exactly on a readable archive, and then lists it; a refused one lists nothing. */
    method Open(data: Archive) returns (ok: bool)
      modifies this
      ensures Valid() && stream == null && streamOpens == 0 && headersRead == []
      ensures ok <==> Readable(data)
      ensures archive == data && if ok then Lists(entries, data) else entries == []
    {
      ResetStream();
      archive, entries, streamOpens, needsPassword, headersRead := data, [], 0, false, [];
      var a := OpenStream();
      if a == null { return false; }
      ok := ScanEntries(a);
      if !ok { entries := []; }
    }

    /** Whether reaching `index` takes a new stream. */
    ghost predicate Reopens(index: nat) reads this { stream == null || index < streamNext }

    /** From any state the cursor was left in, the same as opening anew and scanning to the entry. A
        stream is opened only when there is none or it is past the entry, and the headers read are those
        from there on. */
    method Extract(index: nat, room: bool) returns (outcome: Outcome)
      requires Valid()
      modifies this, stream
      ensures Valid() && archive == old(archive) && entries == old(entries)
      ensures stream == null || stream == old(stream) || fresh(stream)
      ensures entries != [] ==> outcome == FreshOutcome(archive, index, room)
      ensures entries == [] ==> outcome == Failed(false)
      ensures needsPassword == (outcome.Failed? && outcome.needsPassword)
      ensures if index >= |entries| || entries[index] then
                stream == old(stream) && streamNext == old(streamNext) && streamOpens == old(streamOpens)
                && headersRead == old(headersRead)
              else
                && streamOpens == old(streamOpens) + (if old(Reopens(index)) then 1 else 0)
                && headersRead == old(headersRead) + Range(if old(Reopens(index)) then 0 else old(streamNext), index + 1)
                && (if outcome.Extracted? then stream != null && streamNext == index + 1 else stream == null)
    {
      needsPassword := false;
      if index >= |entries| || entries[index] { return Failed(false); }
      if stream == null || index < streamNext {
        ResetStream();
        stream := OpenStream();
        if stream == null { return Failed(false); }
        streamOpens := streamOpens + 1;
      }
      ScanTo(index);
      outcome := ReadMember(stream, room);
      needsPassword := outcome.Failed? && outcome.needsPassword;
      if outcome.Failed? { ResetStream(); }
    }

    /** Reads headers up to and including that of entry `index`. */
    method ScanTo(index: nat)
      requires stream != null && stream.archive == archive && stream.next == streamNext <= index < |archive.members|
      modifies `streamNext, `headersRead, stream
      ensures streamNext == stream.next == index + 1 && stream.offset == 0
      ensures headersRead == old(headersRead) + Range(old(streamNext), index + 1)
    {
      var a := stream;
      var found := false;
      while !found && streamNext <= index
        invariant stream == a && a.next == streamNext <= index + 1
        invariant old(streamNext) <= streamNext
        invariant found == (streamNext == index + 1) && (found ==> a.offset == 0)
        invariant headersRead == old(headersRead) + Range(old(streamNext), streamNext)
        decreases index + 1 - streamNext
      {
        var r := a.NextHeader();
        if !r.Entry? { break; }
        found := streamNext == index;
        headersRead := headersRead + [streamNext];
        streamNext := streamNext + 1;
        assert Range(old(streamNext), streamNext) == Range(old(streamNext), streamNext - 1) + [streamNext - 1];
      }
    }

    /** Validates the declared size, reads that much, and probes past it so that a damaged end shows. */
    static method ReadMember(a: Stream, room: bool) returns (outcome: Outcome)
      requires 0 < a.next <= |a.archive.members| && a.offset == 0
      modifies a`offset
      ensures outcome == MemberOutcome(a.archive.members[a.next - 1], room)
      // the bytes declared, and a clean answer to the read past them
      ensures outcome.Extracted? ==>
                var m := a.archive.members[a.next - 1];
                && m.declared == Some(|outcome.bytes|) && outcome.bytes <= m.data
                && (m.end.Clean? || |m.data| > |outcome.bytes|)
    {
      var m := a.archive.members[a.next - 1];
      if m.declared.None? { return Failed(false); }
      var declared := m.declared.value;
      if declared < 0 || declared > MAX_ENTRY_BYTES || !room { return Failed(false); }
      var out: seq<byte> := [];
      while |out| < declared
        invariant |out| == a.offset <= |m.data| && out == m.data[..|out|] && |out| <= declared
        decreases declared - |out|
      {
        var n, bytes := a.ReadData(declared - |out|);
        if n < 0 { return Failed(m.end.passphraseIssue); }
        if n == 0 { break; }
        out := out + bytes;
      }
      if |out| != declared { return Failed(false); }
      var n, probe := a.ReadData(1);
      if n < 0 { return Failed(m.end.passphraseIssue); }
      outcome := Extracted(out);
    }
  }

  // ---- Runs of extractions ------------------------------------------------------------------------

  /** Streams opened by extracting these in turn, all successfully, from a reader with none: one, and one
      more for every step that does not go forward. */
  function StreamsFor(indices: seq<nat>): nat {
    if |indices| <= 1 then |indices|
    else
      var n := |indices| - 1;
      StreamsFor(indices[..n]) + if indices[n] <= indices[n - 1] then 1 else 0
  }

  predicate Ascending(s: seq<nat>) { forall i, j :: 0 <= i < j < |s| ==> s[i] < s[j] }

  lemma {:induction false} AscendingTakesOneStream(indices: seq<nat>)
    requires Ascending(indices)
    ensures StreamsFor(indices) <= 1
  {
    if |indices| > 1 { AscendingTakesOneStream(indices[..|indices| - 1]); }
  }

  /** The headers read so far go up to the cursor and no header was read twice. */
  predicate ReadOnce(headers: seq<nat>, next: nat) {
    Ascending(headers) && forall k :: 0 <= k < |headers| ==> headers[k] < next
  }

  lemma ReadsOn(headers: seq<nat>, next: nat, index: nat)
    requires ReadOnce(headers, next) && next <= index + 1
    ensures ReadOnce(headers + Range(next, index + 1), index + 1)
  {}

  /** The reader after extracting `done` in turn, all successfully. */
  ghost predicate OnTrack(r: Reader, done: seq<nat>) reads r {
    && r.streamOpens == StreamsFor(done)
    && (if done == [] then r.stream == null else r.stream != null && r.streamNext == done[|done| - 1] + 1)
    && (Ascending(done) ==> ReadOnce(r.headersRead, r.streamNext))
  }

  method ExtractNext(r: Reader, ghost done: seq<nat>, index: nat) returns (outcome: Outcome)
    requires r.Valid() && r.entries != []
    modifies r, r.stream
    ensures r.Valid() && r.archive == old(r.archive) && r.entries == old(r.entries)
    ensures r.stream == null || r.stream == old(r.stream) || fresh(r.stream)
    ensures outcome == FreshOutcome(r.archive, index, true)
    ensures outcome.Extracted? && old(OnTrack(r, done)) ==> OnTrack(r, done + [index])
  {
    StreamsSnoc(done, index);
    AscendingSnoc(done, index);
    if ReadOnce(r.headersRead, r.streamNext) && r.streamNext <= index + 1 { ReadsOn(r.headersRead, r.streamNext, index); }
    StartsOver(index);
    hide MemberOutcome, StreamsFor, ReadOnce, Ascending, Range;
    outcome := r.Extract(index, true);
  }

  lemma StartsOver(index: nat)
    ensures ReadOnce([] + Range(0, index + 1), index + 1)
  {}

  lemma AscendingSnoc(done: seq<nat>, index: nat)
    ensures Ascending(done + [index]) <==> Ascending(done) && (done != [] ==> done[|done| - 1] < index)
  {
    if Ascending(done + [index]) {
      assert forall i :: 0 <= i < |done| ==> (done + [index])[i] == done[i];
      if done != [] { assert (done + [index])[|done| - 1] < (done + [index])[|done|]; }
    }
  }

  /** Whatever is extracted in whatever order, each result is that of a fresh scan. While all succeed, the
      streams opened are as counted, and going forward reads each header once. */
  method ExtractAll(r: Reader, indices: seq<nat>) returns (outcomes: seq<Outcome>)
    requires r.Valid() && r.entries != [] && r.stream == null && r.streamOpens == 0 && r.headersRead == []
    modifies r
    ensures r.Valid() && r.archive == old(r.archive) && |outcomes| == |indices|
    ensures forall i :: 0 <= i < |indices| ==> outcomes[i] == FreshOutcome(r.archive, indices[i], true)
    ensures AllExtracted(outcomes) ==>
              && r.streamOpens == StreamsFor(indices)
              && (Ascending(indices) ==> r.streamOpens <= 1 && Ascending(r.headersRead))
  {
    outcomes := [];
    assert OnTrack(r, indices[..0]);
    for i := 0 to |indices|
      invariant r.Valid() && r.archive == old(r.archive) && r.entries == old(r.entries) && |outcomes| == i
      invariant r.stream == null || fresh(r.stream)
      invariant forall j :: 0 <= j < i ==> outcomes[j] == FreshOutcome(r.archive, indices[j], true)
      invariant AllExtracted(outcomes) ==> OnTrack(r, indices[..i])
    {
      hide FreshOutcome, OnTrack, AllExtracted;
      assert indices[..i + 1] == indices[..i] + [indices[i]];
      var outcome := ExtractNext(r, indices[..i], indices[i]);
      ExtractedSoFar(outcomes, outcome);
      outcomes := outcomes + [outcome];
    }
    assert indices[..|indices|] == indices;
    if Ascending(indices) { AscendingTakesOneStream(indices); }
  }

  lemma ExtractedSoFar(outcomes: seq<Outcome>, o: Outcome)
    ensures AllExtracted(outcomes + [o]) <==> AllExtracted(outcomes) && o.Extracted?
  {
    assert (outcomes + [o])[|outcomes|] == o;
    assert forall i :: 0 <= i < |outcomes| ==> (outcomes + [o])[i] == outcomes[i];
  }

  predicate AllExtracted(outcomes: seq<Outcome>) { forall i :: 0 <= i < |outcomes| ==> outcomes[i].Extracted? }

  lemma StreamsSnoc(done: seq<nat>, index: nat)
    ensures StreamsFor(done + [index]) ==
            StreamsFor(done) + if done == [] || index <= done[|done| - 1] then 1 else 0
  {
    assert (done + [index])[..|done|] == done;
  }
}
