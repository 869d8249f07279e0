/** A plaintext kept in fixed-size pieces that are decrypted one at a time, and copying ranges of it out. */
module FramedBytes {
  import opened Common

  // ---- Fixed-size pieces of a plaintext ---------------------------------------------------

  /** Piece `i` of `data` cut every `limit` bytes; the last one may be shorter. */
  function Piece(data: seq<byte>, limit: Positive, i: nat): seq<byte>
    requires i * limit <= |data|
  {
    data[i * limit..Min((i + 1) * limit, |data|)]
  }

  /** Which piece position `p` lies in, and how far into it. */
  function PieceAt(limit: Positive, p: nat): nat { p / limit }

  function WithinPiece(limit: Positive, p: nat): nat { p % limit }

  function PieceCount(length: nat, limit: Positive): nat {
    if length == 0 then 0 else 1 + (length - 1) / limit
  }

  /** What decrypting each piece yields: its true plaintext, or nothing when it does not authenticate. */
  predicate Sound(pieces: seq<Option<seq<byte>>>, data: seq<byte>, limit: Positive) {
    && |pieces| == PieceCount(|data|, limit)
    && forall i :: 0 <= i < |pieces| ==> i * limit < |data| && (pieces[i].Some? ==> pieces[i].value == Piece(data, limit, i))
  }

  /** The piece position `p` lies in decrypts. */
  predicate Readable(pieces: seq<Option<seq<byte>>>, limit: Positive, p: nat) {
    PieceAt(limit, p) < |pieces| && pieces[PieceAt(limit, p)].Some?
  }

  /** The length of the piece position `p` lies in. */
  function PieceLength(pieces: seq<Option<seq<byte>>>, limit: Positive, p: nat): nat {
    if Readable(pieces, limit, p) then |pieces[PieceAt(limit, p)].value| else 0
  }

  /** Every piece that [offset, offset + n) touches decrypts. */
  predicate Covered(pieces: seq<Option<seq<byte>>>, limit: Positive, offset: nat, n: nat) {
    forall p :: offset <= p < offset + n ==> Readable(pieces, limit, p)
  }

  lemma DivBound(p: nat, length: nat, limit: Positive)
    requires p < length
    ensures p / limit < PieceCount(length, limit)
    ensures p / limit * limit + p % limit == p
  {
    var a, b := p / limit, (length - 1) / limit;
    assert p == limit * a + p % limit && length - 1 == limit * b + (length - 1) % limit;
    MulAscends(limit, b + 1, a);
  }

  lemma PieceMonotone(p: nat, q: nat, limit: Positive)
    requires p <= q
    ensures PieceAt(limit, p) <= PieceAt(limit, q)
  {
    DivMonotone(p, q, limit);
  }

  /** The byte at `p` sits some way into its piece, and the rest of the piece follows it. */
  lemma InPiece(pieces: seq<Option<seq<byte>>>, data: seq<byte>, limit: Positive, p: nat)
    requires Sound(pieces, data, limit) && p < |data|
    ensures var f, w := PieceAt(limit, p), WithinPiece(limit, p);
            && f < |pieces|
            && (pieces[f].Some? ==>
                  var bytes := pieces[f].value;
                  && w < |bytes| && p + (|bytes| - w) <= |data|
                  && bytes[w..] == data[p..p + (|bytes| - w)])
  {
    DivBound(p, |data|, limit);
    var f := p / limit;
    if pieces[f].Some? {
      var bytes := Piece(data, limit, f);
      assert (f + 1) * limit == f * limit + limit;
    }
  }

  /** Positions inside one piece share its index. */
  lemma SamePiece(limit: Positive, p: nat, q: nat)
    requires p <= q < (p / limit + 1) * limit
    ensures q / limit == p / limit
  {
    var a, b := p / limit, q / limit;
    assert p == limit * a + p % limit && q == limit * b + q % limit;
    MulAscends(limit, a + 1, b);
    MulAscends(limit, b + 1, a);
  }

  // ---- Copying a range out -----------------------------------------------------------------

  /** The buffer after `n` bytes of the plaintext from `offset` on have been put at `at`, and no more. */
  predicate Delivered(data: seq<byte>, offset: nat, before: seq<byte>, after: seq<byte>, at: nat, n: nat) {
    && at + n <= |before| && (n > 0 ==> offset + n <= |data|)
    && after == before[..at] + (if n == 0 then [] else data[offset..offset + n]) + before[at + n..]
  }

  /** How many bytes there are to deliver. */
  function Wanted(data: seq<byte>, offset: nat, n: nat): nat {
    if offset >= |data| then 0 else Min(n, |data| - offset)
  }

  lemma NothingToCover(pieces: seq<Option<seq<byte>>>, limit: Positive, offset: nat)
    ensures Covered(pieces, limit, offset, 0)
  {}

  lemma CoveredPart(pieces: seq<Option<seq<byte>>>, limit: Positive, total: nat, offset: nat, n: nat)
    requires n == 0 || offset + n <= total
    ensures Covered(pieces, limit, 0, total) ==> Covered(pieces, limit, offset, n)
  {}

  lemma FailsAt(pieces: seq<Option<seq<byte>>>, limit: Positive, offset: nat, n: nat, p: nat)
    requires offset <= p < offset + n
    ensures !Readable(pieces, limit, p) ==> !Covered(pieces, limit, offset, n)
  {}

  lemma DeliverNone(data: seq<byte>, offset: nat, buffer: seq<byte>, at: nat)
    requires at <= |buffer|
    ensures Delivered(data, offset, buffer, buffer, at, 0)
  {}

  lemma DeliverPiece(data: seq<byte>, position: nat, bytes: seq<byte>, within: nat,
                     before: seq<byte>, after: seq<byte>, at: nat, take: nat)
    requires 0 < take && within + take <= |bytes| && at + take <= |before| && position + take <= |data|
    requires position + (|bytes| - within) <= |data|
    requires bytes[within..] == data[position..position + (|bytes| - within)]
    requires after == before[..at] + bytes[within..within + take] + before[at + take..]
    ensures Delivered(data, position, before, after, at, take)
  {
    var rest := data[position..position + (|bytes| - within)];
    assert rest[..take] == data[position..position + take];
    assert bytes[within..][..take] == bytes[within..within + take];
  }

  lemma DeliverMore(data: seq<byte>, offset: nat, before: seq<byte>, mid: seq<byte>, after: seq<byte>,
                    at: nat, n: nat, more: nat)
    requires Delivered(data, offset, before, mid, at, n) && Delivered(data, offset + n, mid, after, at + n, more)
    requires more > 0
    ensures Delivered(data, offset, before, after, at, n + more)
  {
    assert |mid| == |before|;
    assert mid[..at + n] == before[..at] + if n == 0 then [] else data[offset..offset + n];
    assert mid[at + n + more..] == before[at + n + more..];
    assert data[offset..offset + n + more] == data[offset..offset + n] + data[offset + n..offset + n + more];
  }

  lemma CoverMore(pieces: seq<Option<seq<byte>>>, data: seq<byte>, limit: Positive, offset: nat, n: nat, more: nat)
    requires Sound(pieces, data, limit) && Covered(pieces, limit, offset, n) && offset + n < |data|
    requires Readable(pieces, limit, offset + n)
    requires WithinPiece(limit, offset + n) + more <= PieceLength(pieces, limit, offset + n)
    ensures Covered(pieces, limit, offset, n + more)
  {
    InPiece(pieces, data, limit, offset + n);
    PieceEnds(pieces, data, limit, offset + n);
    forall p | offset <= p < offset + (n + more)
      ensures Readable(pieces, limit, p)
    {
      if p >= offset + n { SamePiece(limit, offset + n, p); }
    }
  }

  lemma PieceEnds(pieces: seq<Option<seq<byte>>>, data: seq<byte>, limit: Positive, p: nat)
    requires Sound(pieces, data, limit) && p < |data| && Readable(pieces, limit, p)
    ensures p - p % limit + PieceLength(pieces, limit, p) <= (p / limit + 1) * limit
  {
    DivBound(p, |data|, limit);
    assert (p / limit + 1) * limit == p / limit * limit + limit;
  }

  /** `memcpy` from a cached piece. */
  method CopyOut(src: seq<byte>, start: nat, out: array<byte>, at: nat, n: nat)
    requires start + n <= |src| && at + n <= out.Length
    modifies out
    ensures out[..] == old(out[..at]) + src[start..start + n] + old(out[at + n..])
  {
    for i := 0 to n
      invariant out[..at] == old(out[..at])
      invariant out[at..at + i] == src[start..start + i]
      invariant out[at + i..] == old(out[at + i..])
    {
      out[at + i] := src[start + i];
    }
    assert out[..] == out[..at] + out[at..at + n] + out[at + n..];
  }
}
