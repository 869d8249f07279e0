/** The read and seek callbacks given to the demuxer: over a plain buffer, and over encrypted pieces
    decrypted on demand. The second is indistinguishable from the first. */
module Avio {
  import opened Common
  import opened FramedBytes
  import V = VideoSource

  const AVERROR_EOF: int := -541478725
  const AVERROR_EIO: int := -5
  const AVERROR_EINVAL: int := -22
  const AVSEEK_SIZE: bv32 := 0x10000
  const AVSEEK_FORCE: bv32 := 0x20000
  const SEEK_SET: bv32 := 0
  const SEEK_CUR: bv32 := 1
  const SEEK_END: bv32 := 2

  // ---- What a reader of the plaintext would see ---------------------------------------------

  datatype Op = Read(size: int) | Seek(offset: int, whence: bv32)

  /** What a callback answers, the bytes it hands over, and the position it leaves. */
  datatype Outcome = Outcome(code: int, bytes: seq<byte>, position: nat)

  function Given(code: int): nat { if code < 0 then 0 else code }

  function ReadOutcome(data: seq<byte>, position: nat, size: int): Outcome {
    if size <= 0 then Outcome(0, [], position)
    else if position >= |data| then Outcome(AVERROR_EOF, [], position)
    else
      var n := Min(size, |data| - position);
      Outcome(n, data[position..position + n], position + n)
  }

  function SeekTarget(length: nat, position: nat, offset: int, whence: bv32): Option<int> {
    var from := whence & !AVSEEK_FORCE;
    if from == SEEK_SET then Some(offset)
    else if from == SEEK_CUR then Some(position + offset)
    else if from == SEEK_END then Some(length + offset)
    else None
  }

  function SeekOutcome(length: nat, position: nat, offset: int, whence: bv32): Outcome {
    if whence & AVSEEK_SIZE == AVSEEK_SIZE then Outcome(length, [], position)
    else
      var target := SeekTarget(length, position, offset, whence);
      if target.None? || target.value < 0 then Outcome(AVERROR_EINVAL, [], position)
      else Outcome(target.value, [], target.value)
  }

  function OpOutcome(data: seq<byte>, position: nat, op: Op): Outcome {
    match op
    case Read(size) => ReadOutcome(data, position, size)
    case Seek(offset, whence) => SeekOutcome(|data|, position, offset, whence)
  }

  /** A reader that goes on from end to end sees the whole plaintext, whatever the sizes it asks for. */
  function Joined(outcomes: seq<Outcome>): seq<byte> {
    if outcomes == [] then [] else Joined(outcomes[..|outcomes| - 1]) + outcomes[|outcomes| - 1].bytes
  }

  /** The outcomes of `ops` in order are those of a reader over `data` that starts at `position`. */
  predicate Conforms(data: seq<byte>, position: nat, ops: seq<Op>, outcomes: seq<Outcome>) {
    && |outcomes| <= |ops|
    && forall i :: 0 <= i < |outcomes| ==>
         outcomes[i] == OpOutcome(data, Reached(position, outcomes, i), ops[i])
  }

  /** Where the reader stands after the first `i` outcomes. */
  function Reached(position: nat, outcomes: seq<Outcome>, i: nat): nat
    requires i <= |outcomes|
  {
    if i == 0 then position else outcomes[i - 1].position
  }

  lemma ConformsMore(data: seq<byte>, position: nat, ops: seq<Op>, outcomes: seq<Outcome>, last: Outcome)
    requires Conforms(data, position, ops, outcomes) && |outcomes| < |ops|
    requires last == OpOutcome(data, Reached(position, outcomes, |outcomes|), ops[|outcomes|])
    ensures Conforms(data, position, ops, outcomes + [last])
  {
    hide OpOutcome;
  }

  lemma ConformsPrefix(data: seq<byte>, position: nat, ops: seq<Op>, outcomes: seq<Outcome>, n: nat)
    requires Conforms(data, position, ops, outcomes) && n <= |outcomes|
    ensures Conforms(data, position, ops[..n], outcomes[..n])
  {
    hide OpOutcome;
  }

  lemma ReadMovesOn(data: seq<byte>, position: nat, size: int)
    requires position <= |data|
    ensures var r := ReadOutcome(data, position, size);
            && position <= r.position <= |data| && r.bytes == data[position..r.position]
            && (r.code == AVERROR_EOF ==> r.position == |data|)
  {}

  /** A reader that never seeks sees the plaintext in order from where it stood, each byte once; when it
      is told the end it has seen all of it. */
  lemma {:induction false} SequentialReadsGiveTheFile(data: seq<byte>, position: nat, ops: seq<Op>, outcomes: seq<Outcome>)
    requires position <= |data| && Conforms(data, position, ops, outcomes) && |outcomes| == |ops|
    requires forall i :: 0 <= i < |ops| ==> ops[i].Read?
    ensures var end := Reached(position, outcomes, |outcomes|);
            && position <= end <= |data| && Joined(outcomes) == data[position..end]
    ensures outcomes != [] && outcomes[|outcomes| - 1].code == AVERROR_EOF ==> Joined(outcomes) == data[position..]
  {
    if outcomes != [] {
      var n := |outcomes| - 1;
      ConformsPrefix(data, position, ops, outcomes, n);
      SequentialReadsGiveTheFile(data, position, ops[..n], outcomes[..n]);
      var mid, last := Reached(position, outcomes, n), outcomes[n];
      assert mid == Reached(position, outcomes[..n], n);
      LastRead(data, position, ops, outcomes);
      assert Joined(outcomes) == Joined(outcomes[..n]) + last.bytes;
      hide *;
      Abut(data, position, mid, last.position);
    }
  }

  lemma LastRead(data: seq<byte>, position: nat, ops: seq<Op>, outcomes: seq<Outcome>)
    requires Conforms(data, position, ops, outcomes) && |outcomes| == |ops| > 0 && ops[|ops| - 1].Read?
    requires Reached(position, outcomes, |outcomes| - 1) <= |data|
    ensures var mid, r := Reached(position, outcomes, |outcomes| - 1), outcomes[|outcomes| - 1];
            && mid <= r.position <= |data| && r.bytes == data[mid..r.position]
            && (r.code == AVERROR_EOF ==> r.position == |data|)
  {
    var n := |outcomes| - 1;
    assert outcomes[n] == OpOutcome(data, Reached(position, outcomes, n), ops[n]);
    ReadMovesOn(data, Reached(position, outcomes, n), ops[n].size);
  }

  lemma Abut(data: seq<byte>, a: nat, b: nat, c: nat)
    requires a <= b <= c <= |data|
    ensures data[a..b] + data[b..c] == data[a..c]
  {}

  // ---- Where seeks go, and what is read there -----------------------------------------------

  /** `whence` is `origin`, with or without the flag that asks for the seek to be tried at any price. */
  predicate From(whence: bv32, origin: bv32) { whence == origin || whence == origin | AVSEEK_FORCE }

  /** The question for the size, whatever other bits are set. */
  predicate SizeQuery(whence: bv32) { whence & AVSEEK_SIZE != 0 }

  /** A seek by `offset` in a file of `length` bytes, from `before` to `after`, answered `code`: from the start
      and from the end it lands at that distance, from the present position it moves by it; before the start it
      lands nowhere, and for an unknown origin neither; a question for the size is answered and moves nothing. */
  predicate Sought(length: nat, before: nat, offset: int, whence: bv32, code: int, after: nat) {
    && (SizeQuery(whence) ==> code == length && after == before)
    && (From(whence, SEEK_SET) && offset >= 0 ==> code == after == offset)
    && (From(whence, SEEK_CUR) && before + offset >= 0 ==> code == after && after - before == offset)
    && (From(whence, SEEK_END) && length + offset >= 0 ==> code == after && after - length == offset)
    && (From(whence, SEEK_SET) && offset < 0 ==> code == AVERROR_EINVAL)
    && (From(whence, SEEK_CUR) && before + offset < 0 ==> code == AVERROR_EINVAL)
    && (From(whence, SEEK_END) && length + offset < 0 ==> code == AVERROR_EINVAL)
    && (!SizeQuery(whence) && !From(whence, SEEK_SET) && !From(whence, SEEK_CUR) && !From(whence, SEEK_END) ==>
          code == AVERROR_EINVAL)
    && (code == AVERROR_EINVAL ==> after == before)
  }

  lemma SeeksGoThere(length: nat, position: nat, offset: int, whence: bv32)
    ensures var r := SeekOutcome(length, position, offset, whence);
            Sought(length, position, offset, whence, r.code, r.position)
  {
    Origins(whence);
    hide From, SizeQuery;
  }

  lemma Origins(whence: bv32)
    ensures From(whence, SEEK_SET) <==> whence & !AVSEEK_FORCE == SEEK_SET
    ensures From(whence, SEEK_CUR) <==> whence & !AVSEEK_FORCE == SEEK_CUR
    ensures From(whence, SEEK_END) <==> whence & !AVSEEK_FORCE == SEEK_END
    ensures SizeQuery(whence) <==> whence & AVSEEK_SIZE == AVSEEK_SIZE
    ensures SizeQuery(whence) ==> !From(whence, SEEK_SET) && !From(whence, SEEK_CUR) && !From(whence, SEEK_END)
  {}

  /** A read gives as much as is asked for and there, and the end of file only where nothing is. */
  lemma ReadsGiveAll(data: seq<byte>, position: nat, size: int)
    requires size > 0
    ensures var r := ReadOutcome(data, position, size);
            if position < |data| then
              && r.code == |r.bytes| && (r.code == size || position + r.code == |data|) && r.code <= size
              && r.position == position + r.code <= |data| && r.bytes == data[position..r.position]
            else r == Outcome(AVERROR_EOF, [], position)
  {}

  /** In any run: a seek to `k` bytes before the end and a read of that many give the last `k` bytes. */
  lemma SeekFromEndThenRead(data: seq<byte>, position: nat, ops: seq<Op>, outcomes: seq<Outcome>, i: nat, k: nat)
    requires Conforms(data, position, ops, outcomes) && i + 1 < |outcomes|
    requires ops[i].Seek? && ops[i].offset + k == 0 && From(ops[i].whence, SEEK_END) && k <= |data|
    requires ops[i + 1].Read? && ops[i + 1].size >= k > 0
    ensures outcomes[i].code == outcomes[i].position == |data| - k
    ensures outcomes[i + 1].code == k && outcomes[i + 1].bytes == data[|data| - k..]
  {
    SeekThenRead(data, position, ops, outcomes, i);
    hide Sought, OpOutcome, From, Conforms;
    LandsFromEnd(data, Reached(position, outcomes, i), ops[i].offset, ops[i].whence, outcomes[i].code,
                 outcomes[i].position);
  }

  lemma LandsFromEnd(data: seq<byte>, before: nat, offset: int, whence: bv32, code: int, after: nat)
    requires Sought(|data|, before, offset, whence, code, after) && From(whence, SEEK_END) && |data| + offset >= 0
    ensures code == after == |data| + offset
  {}

  /** In any run: a seek to `o` bytes after the start, and a read, give the bytes from there on. */
  lemma SeekFromStartThenRead(data: seq<byte>, position: nat, ops: seq<Op>, outcomes: seq<Outcome>, i: nat)
    requires Conforms(data, position, ops, outcomes) && i + 1 < |outcomes|
    requires ops[i].Seek? && From(ops[i].whence, SEEK_SET) && 0 <= ops[i].offset < |data|
    requires ops[i + 1].Read? && ops[i + 1].size > 0
    ensures outcomes[i].code == outcomes[i].position == ops[i].offset
    ensures var o, r := ops[i].offset, outcomes[i + 1];
            && 0 < r.code && (r.code == ops[i + 1].size || o + r.code == |data|) && o + r.code <= |data|
            && r.bytes == data[o..o + r.code]
  {
    SeekThenRead(data, position, ops, outcomes, i);
    hide OpOutcome, From, Conforms;
  }

  /** In any run: a relative seek between two reads skips or repeats exactly that many bytes. */
  lemma SeekFromHereThenRead(data: seq<byte>, position: nat, ops: seq<Op>, outcomes: seq<Outcome>, i: nat)
    requires Conforms(data, position, ops, outcomes) && i + 1 < |outcomes|
    requires ops[i].Seek? && From(ops[i].whence, SEEK_CUR)
    requires 0 <= Reached(position, outcomes, i) + ops[i].offset < |data|
    requires ops[i + 1].Read? && ops[i + 1].size > 0
    ensures outcomes[i].code == outcomes[i].position == Reached(position, outcomes, i) + ops[i].offset
    ensures var o, r := Reached(position, outcomes, i) + ops[i].offset, outcomes[i + 1];
            && 0 < r.code && (r.code == ops[i + 1].size || o + r.code == |data|) && o + r.code <= |data|
            && r.bytes == data[o..o + r.code]
  {
    SeekThenRead(data, position, ops, outcomes, i);
    hide OpOutcome, From, Conforms;
  }

  /** A read begins where the seek before it has landed. */
  lemma SeekThenRead(data: seq<byte>, position: nat, ops: seq<Op>, outcomes: seq<Outcome>, i: nat)
    requires Conforms(data, position, ops, outcomes) && i + 1 < |outcomes| && ops[i].Seek?
    ensures Sought(|data|, Reached(position, outcomes, i), ops[i].offset, ops[i].whence, outcomes[i].code,
                   outcomes[i].position)
    ensures var o, r := outcomes[i].position, outcomes[i + 1];
            ops[i + 1].Read? && ops[i + 1].size > 0 && o < |data| ==>
              && 0 < r.code == |r.bytes| && (r.code == ops[i + 1].size || o + r.code == |data|) && o + r.code <= |data|
              && r.code <= ops[i + 1].size && r.bytes == data[o..o + r.code]
  {
    var before, o := Reached(position, outcomes, i), outcomes[i].position;
    assert outcomes[i] == OpOutcome(data, before, ops[i]);
    assert outcomes[i + 1] == OpOutcome(data, Reached(position, outcomes, i + 1), ops[i + 1]);
    SeeksGoThere(|data|, before, ops[i].offset, ops[i].whence);
    hide Sought, SeekOutcome, ReadOutcome;
    if ops[i + 1].Read? && ops[i + 1].size > 0 { ReadsGiveAll(data, o, ops[i + 1].size); }
  }

  // ---- Over a plain buffer ------------------------------------------------------------------

  class MemAvio {
    const data: seq<byte>
    var pos: nat

    constructor (data: seq<byte>)
      ensures this.data == data && pos == 0
    {
      this.data, pos := data, 0;
    }

    method ReadCb(out: array<byte>, bufSize: int) returns (code: int)
      requires bufSize <= out.Length
      modifies `pos, out
      ensures 0 <= code <= out.Length || code == AVERROR_EOF
      ensures Outcome(code, out[..Given(code)], pos) == ReadOutcome(data, old(pos), bufSize)
      ensures out[Given(code)..] == old(out[Given(code)..])
    {
      if bufSize <= 0 { return 0; }
      var available := if pos < |data| then |data| - pos else 0;
      if available == 0 { return AVERROR_EOF; }
      var n := Min(bufSize, available);
      CopyOut(data, pos, out, 0, n);
      pos := pos + n;
      code := n;
    }

    method SeekCb(offset: int, whence: bv32) returns (code: int)
      modifies `pos
      ensures Outcome(code, [], pos) == SeekOutcome(|data|, old(pos), offset, whence)
      ensures Sought(|data|, old(pos), offset, whence, code, pos)
    {
      SeeksGoThere(|data|, pos, offset, whence);
      hide Sought;
      var size := |data|;
      if whence & AVSEEK_SIZE == AVSEEK_SIZE { return size; }
      var from := whence & !AVSEEK_FORCE;
      var newPos;
      if from == SEEK_SET { newPos := offset; }
      else if from == SEEK_CUR { newPos := pos + offset; }
      else if from == SEEK_END { newPos := size + offset; }
      else { return AVERROR_EINVAL; }
      if newPos < 0 { return AVERROR_EINVAL; }
      pos := newPos;
      code := newPos;
    }
  }

  // ---- Over pieces decrypted on demand ------------------------------------------------------

  class ChunkAvio {
    const source: V.Source
    var pos: nat

    constructor (source: V.Source)
      ensures this.source == source && pos == 0
    {
      this.source, pos := source, 0;
    }

    ghost predicate Valid() reads this, source, source.v3 { source.Valid() }

    /** Exactly what the plaintext has there; or EIO, the position unmoved, when a piece it needs does
        not authenticate or the source was cancelled. */
    method ReadCb(ghost data: seq<byte>, out: array<byte>, bufSize: int) returns (code: int)
      requires Valid() && source.Holds(data) && bufSize <= out.Length
      modifies `pos, source, source.v3, out
      ensures Valid() && (old(source.Cancelled()) ==> source.Cancelled())
      ensures 0 <= code <= out.Length || code == AVERROR_EOF || code == AVERROR_EIO
      ensures code == AVERROR_EIO <==>
                bufSize > 0 && (source.Cancelled() ||
                !Covered(source.Pieces(), source.Limit(), old(pos), Wanted(data, old(pos), bufSize)))
      ensures code == AVERROR_EIO ==> pos == old(pos)
      ensures code != AVERROR_EIO ==>
                Outcome(code, out[..Given(code)], pos) == ReadOutcome(data, old(pos), bufSize)
    {
      if bufSize <= 0 { return 0; }
      var n := source.Read(data, pos, out, 0, bufSize);
      if n < 0 { return AVERROR_EIO; }
      if n == 0 { return AVERROR_EOF; }
      pos := pos + n;
      code := n;
    }

    method SeekCb(offset: int, whence: bv32) returns (code: int)
      requires Valid()
      modifies `pos
      ensures Valid() && Outcome(code, [], pos) == SeekOutcome(source.totalSize, old(pos), offset, whence)
      ensures Sought(source.totalSize, old(pos), offset, whence, code, pos)
    {
      SeeksGoThere(source.totalSize, pos, offset, whence);
      hide Sought;
      var size := source.totalSize;
      if whence & AVSEEK_SIZE == AVSEEK_SIZE { return size; }
      var from := whence & !AVSEEK_FORCE;
      var newPos;
      if from == SEEK_SET { newPos := offset; }
      else if from == SEEK_CUR { newPos := pos + offset; }
      else if from == SEEK_END { newPos := size + offset; }
      else { return AVERROR_EINVAL; }
      if newPos < 0 { return AVERROR_EINVAL; }
      pos := newPos;
      code := newPos;
    }
  }

  // ---- Indistinguishable ------------------------------------------------------------------

  /** One operation on the plain reader. */
  method StepMem(mem: MemAvio, out: array<byte>, op: Op) returns (r: Outcome)
    requires op.Read? ==> op.size <= out.Length
    modifies mem, out
    ensures r == OpOutcome(mem.data, old(mem.pos), op) && mem.pos == r.position
  {
    match op
    case Read(size) =>
      var code := mem.ReadCb(out, size);
      r := Outcome(code, out[..Given(code)], mem.pos);
    case Seek(offset, whence) =>
      var code := mem.SeekCb(offset, whence);
      r := Outcome(code, [], mem.pos);
  }

  /** The same operation on the decrypting reader, or a failure. */
  method StepChunk(ghost data: seq<byte>, chunk: ChunkAvio, out: array<byte>, op: Op) returns (failed: bool, r: Outcome)
    requires chunk.Valid() && chunk.source.Holds(data)
    requires op.Read? ==> op.size <= out.Length
    modifies chunk, chunk.source, chunk.source.v3, out
    ensures chunk.Valid() && (old(chunk.source.Cancelled()) ==> chunk.source.Cancelled())
    ensures failed ==> chunk.source.Cancelled() || !Covered(chunk.source.Pieces(), chunk.source.Limit(), 0, |data|)
    ensures if failed then r == Outcome(AVERROR_EIO, [], old(chunk.pos)) else r == OpOutcome(data, old(chunk.pos), op)
    ensures chunk.pos == r.position
  {
    hide Covered, ReadOutcome, SeekOutcome;
    match op
    case Read(size) =>
      var code := chunk.ReadCb(data, out, size);
      failed := code == AVERROR_EIO;
      if failed {
        CoveredPart(chunk.source.Pieces(), chunk.source.Limit(), |data|, old(chunk.pos), Wanted(data, old(chunk.pos), size));
      }
      r := Outcome(code, out[..Given(code)], chunk.pos);
    case Seek(offset, whence) =>
      var code := chunk.SeekCb(offset, whence);
      failed, r := false, Outcome(code, [], chunk.pos);
  }

  /** Every sequence of reads and seeks, given to both readers, gets the same codes, bytes and positions
      from both, up to a read that cannot be authenticated. */
  method Lockstep(ops: seq<Op>, mem: MemAvio, chunk: ChunkAvio, out: array<byte>, out2: array<byte>)
    returns (seen: seq<Outcome>, seen2: seq<Outcome>, failed: bool)
    requires chunk.Valid() && chunk.source.Holds(mem.data) && mem.pos == chunk.pos
    requires forall i :: 0 <= i < |ops| && ops[i].Read? ==> ops[i].size <= out.Length && ops[i].size <= out2.Length
    modifies mem, chunk, chunk.source, chunk.source.v3, out, out2
    ensures seen == seen2 && Conforms(mem.data, old(mem.pos), ops, seen)
    ensures !failed ==> |seen| == |ops| && mem.pos == chunk.pos
    ensures failed ==> chunk.source.Cancelled() || !Covered(chunk.source.Pieces(), chunk.source.Limit(), 0, |mem.data|)
  {
    hide Covered, OpOutcome;
    seen, seen2, failed := [], [], false;
    for i := 0 to |ops|
      invariant chunk.Valid() && mem.pos == chunk.pos && !failed
      invariant |seen| == i && seen == seen2 && Conforms(mem.data, old(mem.pos), ops, seen)
      invariant mem.pos == Reached(old(mem.pos), seen, i)
    {
      var r2;
      failed, r2 := StepChunk(mem.data, chunk, out2, ops[i]);
      if failed { return; }
      var r := StepMem(mem, out, ops[i]);
      ConformsMore(mem.data, old(mem.pos), ops, seen, r);
      seen, seen2 := seen + [r], seen2 + [r2];
    }
  }
}
