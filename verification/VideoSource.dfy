/** The byte source a demuxer sees: a v3 object source, or the older table of encrypted chunks behind a
    cache of one decrypted chunk. */
module VideoSource {
  import opened Common
  import opened FramedBytes
  import O = VideoObjectSource

  class Source {
    const v3: O.ObjectSource?
    const chunks: seq<Option<seq<byte>>>   // what reading each chunk of the table yields
    const chunkSize: nat
    const totalSize: nat
    var cache: seq<byte>
    var cachedIndex: int

    constructor Chunked(chunks: seq<Option<seq<byte>>>, chunkSize: nat, totalSize: nat)
      ensures Valid() && fresh(this) && v3 == null
      ensures this.chunks == chunks && this.chunkSize == chunkSize && this.totalSize == totalSize
    {
      v3, this.chunks, this.chunkSize, this.totalSize := null, chunks, chunkSize, totalSize;
      cache, cachedIndex := [], -1;
    }

    constructor OfObject(v3: O.ObjectSource?, totalSize: nat)
      requires v3 != null ==> v3.Valid()
      ensures Valid() && fresh(this) && this.v3 == v3 && this.totalSize == totalSize && chunkSize == 0
    {
      this.v3, chunks, chunkSize, this.totalSize := v3, [], 0, totalSize;
      cache, cachedIndex := [], -1;
    }

    ghost predicate Valid() reads this, v3 {
      && (v3 != null ==> v3.Valid())
      && (cachedIndex == -1 || (0 <= cachedIndex < |chunks| && chunks[cachedIndex] == Some(cache)))
    }

    ghost function Pieces(): seq<Option<seq<byte>>> { if v3 != null then v3.reader.frames else chunks }

    ghost function Limit(): Positive {
      if v3 != null then v3.reader.frameLimit else if chunkSize > 0 then chunkSize else 1
    }

    /** The stored pieces are those of `data`, where they decrypt at all. */
    ghost predicate Holds(data: seq<byte>) {
      && |data| == totalSize
      && if v3 != null then v3.reader.Holds(data) else Sound(Pieces(), data, Limit()) && (chunkSize == 0 ==> data == [])
    }

    ghost predicate Cancelled() reads v3 { v3 != null && v3.cancelled }

    /** What one round has done to the buffer: nothing outside its range, nothing at all when it gives up; and
        for a sound table it gives up exactly where a chunk does not decrypt, or has put plaintext there. */
    ghost predicate RoundDone(data: seq<byte>, position: nat, before: seq<byte>, after: seq<byte>, at: nat, n: nat,
                              take: int)
      requires chunkSize > 0
    {
      && -1 <= take <= n && at + n <= |before| == |after|
      && after[..at] == before[..at] && after[at + n..] == before[at + n..]
      && (take <= 0 < n ==> after == before)
      && (Holds(data) && position < |data| && n > 0 ==>
            && (take == -1 <==> !Readable(chunks, chunkSize, position))
            && (take != -1 ==> take > 0))
      && (Holds(data) && position + n <= |data| && n > 0 && take != -1 ==>
            && Delivered(data, position, before, after, at, take)
            && WithinPiece(chunkSize, position) + take <= PieceLength(chunks, chunkSize, position))
    }

    /** The chunk in the cache, freshly decrypted unless it was there. */
    method LoadChunk(idx: nat) returns (ok: bool)
      requires Valid() && v3 == null && idx < |chunks|
      modifies `cache, `cachedIndex
      ensures Valid() && (ok <==> chunks[idx].Some?) && (ok ==> cache == chunks[idx].value)
    {
      if cachedIndex != idx {
        if chunks[idx].None? {
          cache, cachedIndex := [], -1;
          return false;
        }
        cache, cachedIndex := chunks[idx].value, idx;
      }
      ok := true;
    }

    /** One round: the rest of the chunk holding `position`, from the cache or freshly decrypted. A table
        that does not fit the declared size stops the copy; it never writes outside its range. */
    method FillOne(ghost data: seq<byte>, position: nat, out: array<byte>, at: nat, n: nat) returns (take: int)
      requires Valid() && v3 == null && chunkSize > 0 && at + n <= out.Length
      modifies `cache, `cachedIndex, out
      ensures Valid() && -1 <= take <= n && RoundDone(data, position, old(out[..]), out[..], at, n, take)
    {
      if Holds(data) && position < |data| { InPiece(chunks, data, chunkSize, position); }
      hide Sound, Delivered, Piece, PieceAt, WithinPiece;
      var idx := PieceAt(chunkSize, position);
      if idx >= |chunks| { return 0; }
      var loaded := LoadChunk(idx);
      if !loaded { return -1; }
      var within := WithinPiece(chunkSize, position);
      if within >= |cache| { return 0; }
      take := Min(n, |cache| - within);
      ghost var before := out[..];
      CopyOut(cache, within, out, at, take);
      KeepsRest(before, out[..], cache[within..within + take], at, n);
      if Holds(data) && position + n <= |data| && n > 0 {
        DeliverPiece(data, position, cache, within, before, out[..], at, take);
      }
    }

    lemma KeepsRest(before: seq<byte>, after: seq<byte>, bytes: seq<byte>, at: nat, n: nat)
      requires |bytes| <= n && at + n <= |before| && after == before[..at] + bytes + before[at + |bytes|..]
      ensures |after| == |before| && after[..at] == before[..at] && after[at + n..] == before[at + n..]
    {}

    /** With a sound table or object: the bytes asked for, or -1, and -1 only when cancelled or when one
        of the pieces asked for does not decrypt. */
    method Read(ghost data: seq<byte>, offset: nat, out: array<byte>, at: nat, n: nat) returns (code: int)
      requires Valid() && (v3 != null ==> Holds(data)) && at + n <= out.Length
      modifies this, v3, out
      ensures Valid() && -1 <= code <= n
      ensures v3 == null ==> out[..at] == old(out[..at]) && out[at + n..] == old(out[at + n..])
      ensures old(Cancelled()) ==> Cancelled()
      ensures Holds(data) ==>
                (code == -1 <==> Cancelled() || !Covered(Pieces(), Limit(), offset, Wanted(data, offset, n)))
      ensures Holds(data) && code != -1 ==>
                code == Wanted(data, offset, n) && Delivered(data, offset, old(out[..]), out[..], at, code)
    {
      hide Sound, Delivered, Covered;
      if v3 != null {
        ghost var asked;
        code, asked := v3.Read(data, offset, out, at, n);
        return;
      }
      code := ReadChunks(data, offset, out, at, n);
    }

    method ReadChunks(ghost data: seq<byte>, offset: nat, out: array<byte>, at: nat, n: nat) returns (code: int)
      requires Valid() && v3 == null && at + n <= out.Length
      modifies `cache, `cachedIndex, out
      ensures Valid() && -1 <= code <= n
      ensures out[..at] == old(out[..at]) && out[at + n..] == old(out[at + n..])
      ensures Holds(data) ==>
                (code == -1 <==> !Covered(Pieces(), Limit(), offset, Wanted(data, offset, n)))
      ensures Holds(data) && code != -1 ==>
                code == Wanted(data, offset, n) && Delivered(data, offset, old(out[..]), out[..], at, code)
    {
      NothingCopied(data, offset, out[..], at, n);
      WhatIsWanted(data, offset, n);
      hide *;
      CopiedSo(data, offset, out[..], out[..], at, n, 0);
      ghost var before := out[..];
      if offset >= totalSize || chunkSize == 0 { return 0; }
      ghost var written;
      var want := if n < totalSize - offset then n else totalSize - offset;
      code, written := CopyChunks(data, offset, out, at, n, want, before);
      CopiedSo(data, offset, before, out[..], at, n, written);
    }

    /** The copy loop. */
    method CopyChunks(ghost data: seq<byte>, offset: nat, out: array<byte>, at: nat, n: nat, want: nat,
                      ghost before: seq<byte>)
      returns (code: int, ghost copied: nat)
      requires Valid() && v3 == null && chunkSize > 0 && want <= n && at + n <= out.Length
      requires Holds(data) ==> offset + want <= |data|
      requires CopiedSoFar(data, offset, before, out[..], at, n, 0)
      modifies `cache, `cachedIndex, out
      ensures Valid() && copied <= want && (code == -1 || code == copied)
      ensures CopiedSoFar(data, offset, before, out[..], at, n, copied)
      ensures Holds(data) ==> if code == -1 then !Covered(Pieces(), Limit(), offset, want) else copied == want
    {
      hide *;
      var written := 0;
      while written < want
        invariant Valid() && 0 <= written <= want
        invariant CopiedSoFar(data, offset, before, out[..], at, n, written)
      {
        var take := FillNext(data, offset, out, at, n, written, want, before);
        if take < 0 { return -1, written; }
        if take == 0 { break; }
        written := written + take;
      }
      code, copied := written, written;
    }

    /** One round of it. */
    method FillNext(ghost data: seq<byte>, offset: nat, out: array<byte>, at: nat, n: nat, written: nat, want: nat,
                    ghost before: seq<byte>)
      returns (take: int)
      requires Valid() && v3 == null && chunkSize > 0 && written < want <= n && at + n <= out.Length
      requires Holds(data) ==> offset + want <= |data|
      requires CopiedSoFar(data, offset, before, out[..], at, n, written)
      modifies `cache, `cachedIndex, out
      ensures Valid() && -1 <= take <= want - written
      ensures CopiedSoFar(data, offset, before, out[..], at, n, if take < 0 then written else written + take)
      ensures Holds(data) ==> take != 0 && (take == -1 ==> !Covered(Pieces(), Limit(), offset, want))
    {
      hide *;
      ghost var mid := out[..];
      take := FillOne(data, offset + written, out, at + written, want - written);
      MoreCopied(data, offset, before, mid, out[..], at, n, written, want - written, take);
    }

    /** A read after `written` bytes: nothing outside its range has changed, and with a sound table the bytes
        are there and they all authenticated. */
    ghost predicate CopiedSoFar(data: seq<byte>, offset: nat, before: seq<byte>, now: seq<byte>, at: nat, n: nat,
                                written: nat)
    {
      && at + n <= |before| == |now| && now[..at] == before[..at] && now[at + n..] == before[at + n..]
      && (Holds(data) ==>
            Delivered(data, offset, before, now, at, written) && Covered(Pieces(), Limit(), offset, written))
    }

    lemma NothingCopied(data: seq<byte>, offset: nat, buffer: seq<byte>, at: nat, n: nat)
      requires at + n <= |buffer|
      ensures CopiedSoFar(data, offset, buffer, buffer, at, n, 0)
    {
      NothingToCover(Pieces(), Limit(), offset);
      DeliverNone(data, offset, buffer, at);
    }

    lemma CopiedSo(data: seq<byte>, offset: nat, before: seq<byte>, now: seq<byte>, at: nat, n: nat, written: nat)
      requires CopiedSoFar(data, offset, before, now, at, n, written)
      ensures at + n <= |before| == |now| && now[..at] == before[..at] && now[at + n..] == before[at + n..]
      ensures Holds(data) ==>
                Delivered(data, offset, before, now, at, written) && Covered(Pieces(), Limit(), offset, written)
    {
      hide Delivered, Covered, Holds;
    }

    /** One more chunk, or none when `take` is 0 or -1. */
    lemma MoreCopied(data: seq<byte>, offset: nat, before: seq<byte>, mid: seq<byte>, after: seq<byte>,
                     at: nat, n: nat, written: nat, m: nat, take: int)
      requires v3 == null && chunkSize > 0 && 0 < m && written + m <= n
      requires CopiedSoFar(data, offset, before, mid, at, n, written)
      requires Holds(data) ==> offset + written + m <= |data|
      requires RoundDone(data, offset + written, mid, after, at + written, m, take)
      ensures CopiedSoFar(data, offset, before, after, at, n, if take < 0 then written else written + take)
      ensures Holds(data) ==> take != 0 && (take == -1 ==> !Covered(Pieces(), Limit(), offset, written + m))
    {
      hide Delivered, Covered, Readable, PieceAt, WithinPiece, PieceLength, Sound;
      KeepsOuter(before, mid, after, at, n, at + written, m);
      FailsAt(chunks, chunkSize, offset, written + m, offset + written);
      if Holds(data) && take > 0 {
        DeliverMore(data, offset, before, mid, after, at, written, take);
        CoverMore(chunks, data, chunkSize, offset, written, take);
      }
    }

    lemma WhatIsWanted(data: seq<byte>, offset: nat, n: nat)
      ensures v3 == null && Holds(data) ==>
                && |data| == totalSize && (chunkSize == 0 ==> totalSize == 0)
                && Wanted(data, offset, n) ==
                     if offset >= totalSize then 0 else if n < totalSize - offset then n else totalSize - offset
    {
      hide Sound;
    }

    lemma KeepsOuter(before: seq<byte>, mid: seq<byte>, after: seq<byte>, at: nat, n: nat, from: nat, m: nat)
      requires |before| == |mid| == |after| && at <= from && from + m <= at + n <= |before|
      requires mid[..at] == before[..at] && mid[at + n..] == before[at + n..]
      requires after[..from] == mid[..from] && after[from + m..] == mid[from + m..]
      ensures after[..at] == before[..at] && after[at + n..] == before[at + n..]
    {
      assert after[..from][..at] == after[..at] && mid[..from][..at] == mid[..at];
      var k := at + n - (from + m);
      assert after[from + m..][k..] == after[at + n..] && mid[from + m..][k..] == mid[at + n..];
    }
  }
}
