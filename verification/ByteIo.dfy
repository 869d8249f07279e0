/** Little-endian integers in byte buffers: an appending writer, and a bounds-checked reader that
    latches its first short read. */
module ByteIo {
  import opened Common

  function Pow256(n: nat): (p: nat)
    ensures p > 0
  {
    if n == 0 then 1 else 256 * Pow256(n - 1)
  }

  /** The `n` low bytes of `v`, least significant first. */
  function Bytes(v: nat, n: nat): (s: seq<byte>)
    ensures |s| == n
  {
    if n == 0 then [] else [v % 256] + Bytes(v / 256, n - 1)
  }

  function LittleEndian(s: seq<byte>): nat {
    if s == [] then 0 else s[0] + 256 * LittleEndian(s[1..])
  }

  lemma {:induction false} IntRoundTrip(v: nat, n: nat)
    requires v < Pow256(n)
    ensures LittleEndian(Bytes(v, n)) == v
  {
    if n > 0 {
      IntRoundTrip(v / 256, n - 1);
      assert Bytes(v, n)[1..] == Bytes(v / 256, n - 1);
    }
  }

  /** The two widths in use, written out. */
  lemma ShortIntegers(v: nat)
    ensures Bytes(v, 2) == [v % 256, v / 256 % 256]
    ensures Bytes(v, 4) == [v % 256, v / 256 % 256, v / 65536 % 256, v / 16777216 % 256]
  {
    var a, b, c := v / 256, v / 256 / 256, v / 256 / 256 / 256;
    assert b == v / 65536 && c == v / 16777216;
    assert Bytes(c, 0) == [] && Bytes(b, 0) == [];
    assert Bytes(c, 1) == [c % 256] && Bytes(a, 1) == [a % 256];
    assert Bytes(b, 2) == [b % 256] + Bytes(c, 1);
    assert Bytes(a, 3) == [a % 256] + Bytes(b, 2);
  }

  lemma {:induction false} BytesRoundTrip(s: seq<byte>)
    ensures LittleEndian(s) < Pow256(|s|) && Bytes(LittleEndian(s), |s|) == s
  {
    if s != [] {
      BytesRoundTrip(s[1..]);
      assert s == [s[0]] + s[1..];
    }
  }

  lemma {:induction false} LittleEndianSnoc(s: seq<byte>, b: byte)
    ensures LittleEndian(s + [b]) == LittleEndian(s) + b * Pow256(|s|)
  {
    if s == [] {
      assert [b][1..] == [];
    } else {
      LittleEndianSnoc(s[1..], b);
      assert (s + [b])[1..] == s[1..] + [b];
      assert b * Pow256(|s|) == 256 * (b * Pow256(|s| - 1));
    }
  }

  // ---- Parsers, on values -------------------------------------------------------------------

  datatype Parsed<+T> = Fail | Got(value: T, rest: seq<byte>) {
    /** What is left to read. */
    function Left(): Option<seq<byte>> { if Got? then Some(rest) else None }
  }

  function ParseInt(s: seq<byte>, n: nat): Parsed<nat> {
    if |s| < n then Fail else Got(LittleEndian(s[..n]), s[n..])
  }

  function ParseBytes(s: seq<byte>, n: nat): Parsed<seq<byte>> {
    if |s| < n then Fail else Got(s[..n], s[n..])
  }

  function ParseByte(s: seq<byte>): Parsed<byte> {
    if s == [] then Fail else Got(s[0], s[1..])
  }

  lemma Regroup(a: seq<byte>, b: seq<byte>, c: seq<byte>)
    ensures (a + b) + c == a + (b + c)
  {}

  lemma ByteUndone(b: byte, tail: seq<byte>)
    ensures ParseByte([b] + tail) == Got(b, tail)
  {
    assert ([b] + tail)[1..] == tail;
  }

  lemma ByteExact(s: seq<byte>)
    ensures ParseByte(s).Got? ==> s == [ParseByte(s).value] + ParseByte(s).rest
  {}

  lemma BytesUndone(b: seq<byte>, tail: seq<byte>)
    ensures ParseBytes(b + tail, |b|) == Got(b, tail)
  {}

  lemma BytesExact(s: seq<byte>, n: nat)
    ensures var p := ParseBytes(s, n); p.Got? ==> |p.value| == n && s == p.value + p.rest
  {}

  lemma ParsesInt(v: nat, n: nat, tail: seq<byte>)
    requires v < Pow256(n)
    ensures ParseInt(Bytes(v, n) + tail, n) == Got(v, tail)
  {
    IntRoundTrip(v, n);
    assert (Bytes(v, n) + tail)[..n] == Bytes(v, n);
  }

  lemma IntParsed(s: seq<byte>, n: nat)
    ensures var p := ParseInt(s, n);
            p.Got? ==> p.value < Pow256(n) && s == Bytes(p.value, n) + p.rest
  {
    if n <= |s| {
      BytesRoundTrip(s[..n]);
      assert s == s[..n] + s[n..];
    }
  }

  // ---- The writer ---------------------------------------------------------------------------

  class ByteWriter {
    var written: seq<byte>

    constructor ()
      ensures written == []
    {
      written := [];
    }

    method Int(v: nat, n: nat)
      modifies this
      ensures written == old(written) + Bytes(v, n)
    {
      var rest := v;
      for i := 0 to n
        invariant written + Bytes(rest, n - i) == old(written) + Bytes(v, n)
      {
        assert Bytes(rest, n - i) == [rest % 256] + Bytes(rest / 256, n - i - 1);
        written := written + [rest % 256];
        rest := rest / 256;
      }
    }

    method Raw(bytes: seq<byte>)
      modifies this
      ensures written == old(written) + bytes
    {
      written := written + bytes;
    }
  }

  // ---- The reader ---------------------------------------------------------------------------

  class ByteReader {
    const input: seq<byte>
    var pos: nat
    var ok: bool

    ghost predicate Valid() reads this { pos <= |input| }

    /** What is left to read, or nothing once a read has come up short. */
    ghost function Left(): Option<seq<byte>>
      requires Valid()
      reads this
    {
      if ok then Some(input[pos..]) else None
    }

    constructor (input: seq<byte>)
      ensures Valid() && this.input == input && Left() == Some(input)
    {
      this.input, pos, ok := input, 0, true;
    }

    method Remaining() returns (n: nat)
      requires Valid()
      ensures n == if Left().Some? then |Left().value| else 0
    {
      n := if ok then |input| - pos else 0;
    }

    method Need(n: nat) returns (enough: bool)
      requires Valid()
      modifies `ok
      ensures enough == ok == (old(ok) && |input| - pos >= n)
    {
      if !ok { return false; }
      if |input| - pos < n {
        ok := false;
        return false;
      }
      enough := true;
    }

    /** An `n`-byte integer, or 0 once latched. */
    method Int(n: nat) returns (v: nat)
      requires Valid()
      modifies this
      ensures Valid()
      ensures old(Left()).None? ==> Left().None? && v == 0
      ensures old(Left()).Some? ==>
                var p := ParseInt(old(Left()).value, n);
                Left() == p.Left() && v == if p.Got? then p.value else 0
    {
      v := 0;
      var enough := Need(n);
      if !enough { return; }
      var scale: nat := 1;
      for i := 0 to n
        invariant ok && pos == old(pos) && pos + n <= |input|
        invariant scale == Pow256(i)
        invariant v == LittleEndian(input[pos..pos + i])
      {
        LittleEndianSnoc(input[pos..pos + i], input[pos + i]);
        assert input[pos..pos + i + 1] == input[pos..pos + i] + [input[pos + i]];
        v := v + input[pos + i] * scale;
        scale := 256 * scale;
      }
      assert input[pos..][..n] == input[pos..pos + n];
      pos := pos + n;
    }

    method Raw(n: nat) returns (bytes: seq<byte>)
      requires Valid()
      modifies this
      ensures Valid()
      ensures old(Left()).None? ==> Left().None?
      ensures old(Left()).Some? ==>
                var p := ParseBytes(old(Left()).value, n);
                Left() == p.Left() && (p.Got? ==> bytes == p.value)
    {
      bytes := [];
      var enough := Need(n);
      if !enough { return; }
      bytes := input[pos..pos + n];
      pos := pos + n;
    }
  }
}
