/** Decoding UTF-8 one scalar at a time, against RFC 3629: the byte sequences of its section 4 are
    accepted, and nothing else; what they decode to is what the encoder of section 3 made them from. */
module Utf8 {

  const BAD_CODEPOINT: bv32 := 0xFFFF_FFFF

  // ---- RFC 3629 -------------------------------------------------------------------------------

  /** A Unicode scalar value: section 3 excludes the surrogates. */
  predicate IsScalar(cp: bv32) { cp <= 0x10FFFF && !(0xD800 <= cp <= 0xDFFF) }

  /** The table of section 3. */
  function Encode(cp: bv32): seq<bv8>
    requires IsScalar(cp)
  {
    if cp <= 0x7F then [(cp & 0x7F) as bv8]
    else if cp <= 0x7FF then [Lead2(cp), Low6(cp)]
    else if cp <= 0xFFFF then [Lead3(cp), Low6(cp >> 6), Low6(cp)]
    else [Lead4(cp), Low6(cp >> 12), Low6(cp >> 6), Low6(cp)]
  }

  function Lead2(cp: bv32): bv8
    requires cp <= 0x7FF
  {
    (0xC0 | (cp >> 6)) as bv8
  }

  function Lead3(cp: bv32): bv8
    requires cp <= 0xFFFF
  {
    (0xE0 | (cp >> 12)) as bv8
  }

  function Lead4(cp: bv32): bv8
    requires cp <= 0x10FFFF
  {
    (0xF0 | (cp >> 18)) as bv8
  }

  function Low6(x: bv32): bv8 { (0x80 | (x & 0x3F)) as bv8 }

  /** The rules of section 4. */
  predicate Tail(b: bv8) { 0x80 <= b <= 0xBF }

  predicate Utf8One(b0: bv8) { b0 <= 0x7F }

  predicate Utf8Two(b0: bv8, b1: bv8) { 0xC2 <= b0 <= 0xDF && Tail(b1) }

  predicate Utf8Three(b0: bv8, b1: bv8, b2: bv8) {
    || (b0 == 0xE0 && 0xA0 <= b1 <= 0xBF && Tail(b2))
    || (0xE1 <= b0 <= 0xEC && Tail(b1) && Tail(b2))
    || (b0 == 0xED && 0x80 <= b1 <= 0x9F && Tail(b2))
    || (0xEE <= b0 <= 0xEF && Tail(b1) && Tail(b2))
  }

  predicate Utf8Four(b0: bv8, b1: bv8, b2: bv8, b3: bv8) {
    || (b0 == 0xF0 && 0x90 <= b1 <= 0xBF && Tail(b2) && Tail(b3))
    || (0xF1 <= b0 <= 0xF3 && Tail(b1) && Tail(b2) && Tail(b3))
    || (b0 == 0xF4 && 0x80 <= b1 <= 0x8F && Tail(b2) && Tail(b3))
  }

  /** A UTF8-char of `n` bytes stands at `i`. */
  predicate CharAt(s: seq<bv8>, i: nat, n: nat) {
    || (n == 1 && i + 1 <= |s| && Utf8One(s[i]))
    || (n == 2 && i + 2 <= |s| && Utf8Two(s[i], s[i + 1]))
    || (n == 3 && i + 3 <= |s| && Utf8Three(s[i], s[i + 1], s[i + 2]))
    || (n == 4 && i + 4 <= |s| && Utf8Four(s[i], s[i + 1], s[i + 2], s[i + 3]))
  }

  /** How many bytes of one UTF8-char stand at `i`; 0 when none does. */
  function CharLength(s: seq<bv8>, i: nat): (n: nat)
    ensures n <= 4 && (n > 0 ==> i + n <= |s|)
  {
    if CharAt(s, i, 1) then 1
    else if CharAt(s, i, 2) then 2
    else if CharAt(s, i, 3) then 3
    else if CharAt(s, i, 4) then 4
    else 0
  }

  /** No UTF8-char begins another, so the length at a position is the only one. */
  lemma CharLengthIsUnique(s: seq<bv8>, i: nat, n: nat)
    ensures CharAt(s, i, n) <==> n > 0 && CharLength(s, i) == n
  {}

  /** The scalar a UTF8-char stands for. */
  function ScalarAt(s: seq<bv8>, i: nat, n: nat): bv32
    requires CharAt(s, i, n)
  {
    if n == 1 then s[i] as bv32
    else if n == 2 then Two(s[i], s[i + 1])
    else if n == 3 then Three(s[i], s[i + 1], s[i + 2])
    else Four(s[i], s[i + 1], s[i + 2], s[i + 3])
  }

  function Push(cp: bv32, b: bv8): bv32 { (cp << 6) | ((b as bv32) & 0x3F) }

  function Two(b0: bv8, b1: bv8): bv32 { Push((b0 as bv32) & 0x1F, b1) }

  function Three(b0: bv8, b1: bv8, b2: bv8): bv32 { Push(Push((b0 as bv32) & 0x0F, b1), b2) }

  function Four(b0: bv8, b1: bv8, b2: bv8, b3: bv8): bv32 { Push(Push(Push((b0 as bv32) & 0x07, b1), b2), b3) }

  /** Equal bytes are the same UTF8-char. */
  lemma SameBytesSameChar(s: seq<bv8>, i: nat, t: seq<bv8>, j: nat, n: nat)
    requires i + n <= |s| && j + n <= |t| && s[i..i + n] == t[j..j + n]
    ensures CharAt(s, i, n) <==> CharAt(t, j, n)
    ensures CharAt(s, i, n) ==> ScalarAt(s, i, n) == ScalarAt(t, j, n)
  {
    if n > 0 { assert s[i] == s[i..i + n][0] == t[j]; }
    if n > 1 { assert s[i + 1] == s[i..i + n][1] == t[j + 1]; }
    if n > 2 { assert s[i + 2] == s[i..i + n][2] == t[j + 2]; }
    if n > 3 { assert s[i + 3] == s[i..i + n][3] == t[j + 3]; }
    hide Utf8One, Utf8Two, Utf8Three, Utf8Four, Two, Three, Four;
  }

  // The encoder and the table agree, length by length.

  lemma TwoBytes(cp: bv32, b0: bv8, b1: bv8)
    ensures 0x80 <= cp <= 0x7FF && b0 == Lead2(cp) && b1 == Low6(cp) <==> Utf8Two(b0, b1) && Two(b0, b1) == cp
  {}

  lemma ThreeBytes(cp: bv32, b0: bv8, b1: bv8, b2: bv8)
    ensures 0x800 <= cp <= 0xFFFF && IsScalar(cp)
            && b0 == Lead3(cp) && b1 == Low6(cp >> 6) && b2 == Low6(cp) <==>
            Utf8Three(b0, b1, b2) && Three(b0, b1, b2) == cp
  {
    if 0x800 <= cp <= 0xFFFF && IsScalar(cp) { EncodeThree(cp); }
    if Utf8Three(b0, b1, b2) { DecodeThree(b0, b1, b2); }
    hide *;
  }

  lemma EncodeThree(cp: bv32)
    requires 0x800 <= cp <= 0xFFFF && IsScalar(cp)
    ensures var b0, b1, b2 := Lead3(cp), Low6(cp >> 6), Low6(cp);
            Utf8Three(b0, b1, b2) && Three(b0, b1, b2) == cp
  {}

  lemma DecodeThree(b0: bv8, b1: bv8, b2: bv8)
    requires Utf8Three(b0, b1, b2)
    ensures var cp := Three(b0, b1, b2);
            0x800 <= cp <= 0xFFFF && IsScalar(cp) && b0 == Lead3(cp) && b1 == Low6(cp >> 6) && b2 == Low6(cp)
  {
    ThreeRange(b0, b1, b2);
    ThreeLead(b0, b1, b2);
    assert Tail(b1) && Tail(b2);
    ThreeTails(b0, b1, b2);
    hide *;
  }

  lemma ThreeRange(b0: bv8, b1: bv8, b2: bv8)
    requires Utf8Three(b0, b1, b2)
    ensures 0x800 <= Three(b0, b1, b2) <= 0xFFFF && IsScalar(Three(b0, b1, b2))
  {}

  lemma ThreeLead(b0: bv8, b1: bv8, b2: bv8)
    requires Utf8Three(b0, b1, b2) && Three(b0, b1, b2) <= 0xFFFF
    ensures Lead3(Three(b0, b1, b2)) == b0
  {}

  lemma ThreeTails(b0: bv8, b1: bv8, b2: bv8)
    requires Tail(b1) && Tail(b2)
    ensures var cp := Three(b0, b1, b2); b1 == Low6(cp >> 6) && b2 == Low6(cp)
  {}

  lemma FourBytes(cp: bv32, b0: bv8, b1: bv8, b2: bv8, b3: bv8)
    ensures 0x10000 <= cp <= 0x10FFFF
            && b0 == Lead4(cp) && b1 == Low6(cp >> 12) && b2 == Low6(cp >> 6) && b3 == Low6(cp) <==>
            Utf8Four(b0, b1, b2, b3) && Four(b0, b1, b2, b3) == cp
  {
    if 0x10000 <= cp <= 0x10FFFF { EncodeFour(cp); }
    if Utf8Four(b0, b1, b2, b3) { DecodeFour(b0, b1, b2, b3); }
    hide *;
  }

  lemma EncodeFour(cp: bv32)
    requires 0x10000 <= cp <= 0x10FFFF
    ensures var b0, b1, b2, b3 := Lead4(cp), Low6(cp >> 12), Low6(cp >> 6), Low6(cp);
            Utf8Four(b0, b1, b2, b3) && Four(b0, b1, b2, b3) == cp
  {}

  lemma DecodeFour(b0: bv8, b1: bv8, b2: bv8, b3: bv8)
    requires Utf8Four(b0, b1, b2, b3)
    ensures var cp := Four(b0, b1, b2, b3);
            0x10000 <= cp <= 0x10FFFF
            && b0 == Lead4(cp) && b1 == Low6(cp >> 12) && b2 == Low6(cp >> 6) && b3 == Low6(cp)
  {
    FourRange(b0, b1, b2, b3);
    FourLead(b0, b1, b2, b3);
    assert Tail(b1) && Tail(b2) && Tail(b3);
    FourTails(b0, b1, b2, b3);
    hide *;
  }

  lemma FourRange(b0: bv8, b1: bv8, b2: bv8, b3: bv8)
    requires Utf8Four(b0, b1, b2, b3)
    ensures 0x10000 <= Four(b0, b1, b2, b3) <= 0x10FFFF
  {}

  lemma FourLead(b0: bv8, b1: bv8, b2: bv8, b3: bv8)
    requires Utf8Four(b0, b1, b2, b3) && Four(b0, b1, b2, b3) <= 0x10FFFF
    ensures Lead4(Four(b0, b1, b2, b3)) == b0
  {}

  lemma FourTails(b0: bv8, b1: bv8, b2: bv8, b3: bv8)
    requires Tail(b1) && Tail(b2) && Tail(b3)
    ensures var cp := Four(b0, b1, b2, b3);
            b1 == Low6(cp >> 12) && b2 == Low6(cp >> 6) && b3 == Low6(cp)
  {}

  lemma OneByte(cp: bv32, b0: bv8)
    ensures cp <= 0x7F && b0 == (cp & 0x7F) as bv8 <==> Utf8One(b0) && (b0 as bv32) == cp
    ensures cp <= 0x7F ==> cp & 0x7F == cp
  {}

  /** A UTF8-char standing for `cp` is exactly the encoding of `cp`. */
  lemma CharIsEncoding(s: seq<bv8>, i: nat, n: nat, cp: bv32)
    requires i + n <= |s|
    ensures CharAt(s, i, n) && ScalarAt(s, i, n) == cp <==> IsScalar(cp) && s[i..i + n] == Encode(cp)
  {
    if n == 1 { OneByte(cp, s[i]); }
    if n == 2 { TwoBytes(cp, s[i], s[i + 1]); }
    if n == 3 { ThreeBytes(cp, s[i], s[i + 1], s[i + 2]); }
    if n == 4 { FourBytes(cp, s[i], s[i + 1], s[i + 2], s[i + 3]); }
    BelowSurrogates(cp);
    SliceBytes(s, i, n);
    hide Utf8One, Utf8Two, Utf8Three, Utf8Four, Two, Three, Four, Low6, Lead2, Lead3, Lead4, IsScalar;
  }

  lemma SliceBytes(s: seq<bv8>, i: nat, n: nat)
    requires i + n <= |s|
    ensures n == 1 ==> s[i..i + n] == [s[i]]
    ensures n == 2 ==> s[i..i + n] == [s[i], s[i + 1]]
    ensures n == 3 ==> s[i..i + n] == [s[i], s[i + 1], s[i + 2]]
    ensures n == 4 ==> s[i..i + n] == [s[i], s[i + 1], s[i + 2], s[i + 3]]
  {}

  lemma BelowSurrogates(cp: bv32)
    ensures cp <= 0x7FF ==> IsScalar(cp)
    ensures IsScalar(cp) ==> cp <= 0x10FFFF
    ensures 0x10000 <= cp <= 0x10FFFF ==> IsScalar(cp)
  {}

  // ---- One step of the decoder ------------------------------------------------------------------

  /** The scalar at `i` and where the next one starts; a byte that begins no UTF8-char is skipped alone. */
  function Step(s: seq<bv8>, i: nat): (r: (bv32, nat))
    requires i < |s|
    ensures i < r.1 <= |s|
  {
    var n := CharLength(s, i);
    if n == 0 then (BAD_CODEPOINT, i + 1) else (ScalarAt(s, i, n), i + n)
  }

  /** The decoder yields a scalar exactly where that scalar's encoding stands, and moves past it;
      anywhere else it moves one byte. */
  lemma DecodesExactlyEncodings(s: seq<bv8>, i: nat, cp: bv32)
    requires i < |s|
    ensures Step(s, i).0 == cp && cp != BAD_CODEPOINT <==> IsScalar(cp) && Encode(cp) <= s[i..]
    ensures IsScalar(cp) && Encode(cp) <= s[i..] ==> Step(s, i).1 == i + |Encode(cp)|
    ensures Step(s, i).0 == BAD_CODEPOINT ==> Step(s, i).1 == i + 1
  {
    BadIsNoScalar();
    StepDecodes(s, i);
    if IsScalar(cp) && Encode(cp) <= s[i..] {
      EncodingIsStepped(s, i, cp);
    }
    hide *;
  }

  lemma StepDecodes(s: seq<bv8>, i: nat)
    requires i < |s|
    ensures var (cp, next) := Step(s, i);
            if CharLength(s, i) == 0 then cp == BAD_CODEPOINT && next == i + 1
            else IsScalar(cp) && next <= |s| && s[i..next] == Encode(cp) && Encode(cp) <= s[i..]
  {
    var n := CharLength(s, i);
    if n > 0 {
      CharLengthIsUnique(s, i, n);
      CharIsEncoding(s, i, n, ScalarAt(s, i, n));
      assert s[i..][..n] == s[i..i + n];
    }
    hide CharAt, ScalarAt, CharLength, Encode, IsScalar;
  }

  lemma EncodingIsStepped(s: seq<bv8>, i: nat, cp: bv32)
    requires i < |s| && IsScalar(cp) && Encode(cp) <= s[i..]
    ensures CharLength(s, i) == |Encode(cp)| > 0 && Step(s, i) == (cp, i + |Encode(cp)|)
  {
    var m := |Encode(cp)|;
    assert m > 0;
    assert s[i..][..m] == s[i..i + m];
    CharIsEncoding(s, i, m, cp);
    CharLengthIsUnique(s, i, m);
    hide CharAt, ScalarAt, CharLength, Encode, IsScalar;
  }

  lemma BadIsNoScalar()
    ensures !IsScalar(BAD_CODEPOINT)
  {}

  // ---- The decoder ------------------------------------------------------------------------------

  function ByteAt(s: seq<bv8>, i: nat): bv32
    requires i < |s|
  {
    s[i] as bv32
  }

  const UTF8_MIN_FOR_LEN: seq<bv32> := [0, 0, 0x80, 0x800, 0x10000]

  /** What the lead byte's bits and the first `k - 1` continuation bytes have accumulated. */
  function Accumulated(s: seq<bv8>, i: nat, bits: bv32, k: nat): bv32
    requires 1 <= k && i + k <= |s|
  {
    if k == 1 then bits else Push(Accumulated(s, i, bits, k - 1), s[i + k - 1])
  }

  predicate Continuation(b: bv8) { (b as bv32) & 0xC0 == 0x80 }

  predicate Rejected(cp: bv32, min: bv32) { cp < min || (cp >= 0xD800 && cp <= 0xDFFF) || cp > 0x10FFFF }

  /** The bytes after the lead byte, as far as they have been looked at, are continuation bytes. */
  predicate Continued(s: seq<bv8>, i: nat, k: nat)
    requires i + k <= |s|
  {
    forall j :: i + 1 <= j < i + k ==> Continuation(s[j])
  }

  // The rules of section 4 as bit tests.

  lemma LeadTwo(b0: bv8)
    requires (b0 as bv32) & 0xE0 == 0xC0
    ensures !Utf8One(b0) && forall b1, b2 :: !Utf8Three(b0, b1, b2)
    ensures forall b1, b2, b3 :: !Utf8Four(b0, b1, b2, b3)
    ensures forall b1 :: Utf8Two(b0, b1) <==> Continuation(b1) && !Rejected(Two(b0, b1), 0x80)
  {}

  lemma LeadThree(b0: bv8)
    requires (b0 as bv32) & 0xF0 == 0xE0
    ensures !Utf8One(b0) && forall b1 :: !Utf8Two(b0, b1)
    ensures forall b1, b2, b3 :: !Utf8Four(b0, b1, b2, b3)
    ensures forall b1, b2 :: Utf8Three(b0, b1, b2) <==>
              Continuation(b1) && Continuation(b2) && !Rejected(Three(b0, b1, b2), 0x800)
  {}

  lemma LeadFour(b0: bv8)
    requires (b0 as bv32) & 0xF8 == 0xF0
    ensures !Utf8One(b0) && forall b1 :: !Utf8Two(b0, b1)
    ensures forall b1, b2 :: !Utf8Three(b0, b1, b2)
    ensures forall b1, b2, b3 :: Utf8Four(b0, b1, b2, b3) <==>
              Continuation(b1) && Continuation(b2) && Continuation(b3) && !Rejected(Four(b0, b1, b2, b3), 0x10000)
  {}

  lemma LeadNothing(b0: bv8)
    requires b0 >= 0x80 && (b0 as bv32) & 0xE0 != 0xC0 && (b0 as bv32) & 0xF0 != 0xE0 && (b0 as bv32) & 0xF8 != 0xF0
    ensures !Utf8One(b0) && forall b1 :: !Utf8Two(b0, b1)
    ensures forall b1, b2 :: !Utf8Three(b0, b1, b2)
    ensures forall b1, b2, b3 :: !Utf8Four(b0, b1, b2, b3)
  {}

  /** The bits of the lead byte of a sequence of `len` bytes, and the least scalar that needs so many. */
  predicate Leads(b0: bv8, len: nat, bits: bv32, min: bv32) {
    || (len == 2 && (b0 as bv32) & 0xE0 == 0xC0 && bits == (b0 as bv32) & 0x1F && min == 0x80)
    || (len == 3 && (b0 as bv32) & 0xF0 == 0xE0 && bits == (b0 as bv32) & 0x0F && min == 0x800)
    || (len == 4 && (b0 as bv32) & 0xF8 == 0xF0 && bits == (b0 as bv32) & 0x07 && min == 0x10000)
  }

  /** Past a lead byte, a UTF8-char is continuation bytes whose value is not rejected. */
  lemma CharByBits(s: seq<bv8>, i: nat, len: nat, bits: bv32, min: bv32)
    requires i < |s| && Leads(s[i], len, bits, min)
    ensures if i + len <= |s| && Continued(s, i, len) && !Rejected(Accumulated(s, i, bits, len), min)
            then CharLength(s, i) == len && ScalarAt(s, i, len) == Accumulated(s, i, bits, len)
            else CharLength(s, i) == 0
  {
    if len == 2 { LeadTwo(s[i]); } else if len == 3 { LeadThree(s[i]); } else { LeadFour(s[i]); }
    if i + len <= |s| {
      assert Accumulated(s, i, bits, 2) == Push(bits, s[i + 1]);
      if len > 2 { assert Accumulated(s, i, bits, 3) == Push(Push(bits, s[i + 1]), s[i + 2]); }
      if len > 3 { assert Accumulated(s, i, bits, 4) == Push(Push(Push(bits, s[i + 1]), s[i + 2]), s[i + 3]); }
      ContinuedBytes(s, i, len);
      hide Utf8One, Utf8Two, Utf8Three, Utf8Four, Continuation, Rejected, Push, Continued;
    }
  }

  lemma ContinuedBytes(s: seq<bv8>, i: nat, len: nat)
    requires i + len <= |s|
    ensures len == 2 ==> (Continued(s, i, len) <==> Continuation(s[i + 1]))
    ensures len == 3 ==> (Continued(s, i, len) <==> Continuation(s[i + 1]) && Continuation(s[i + 2]))
    ensures len == 4 ==>
              (Continued(s, i, len) <==> Continuation(s[i + 1]) && Continuation(s[i + 2]) && Continuation(s[i + 3]))
  {
    hide Continuation;
  }

  lemma AsciiOrNothing(s: seq<bv8>, i: nat)
    requires i < |s|
    ensures (s[i] as bv32) < 0x80 ==> Step(s, i) == (s[i] as bv32, i + 1)
    ensures (s[i] as bv32) >= 0x80 && Lead(s[i] as bv32).0 == 0 ==> Step(s, i) == (BAD_CODEPOINT, i + 1)
  {
    if (s[i] as bv32) >= 0x80 && Lead(s[i] as bv32).0 == 0 { LeadNothing(s[i]); }
  }

  /** How many bytes a lead byte announces, and its bits; 0 for a byte that leads nothing. */
  function Lead(b0: bv32): (nat, bv32) {
    if b0 & 0xE0 == 0xC0 then (2, b0 & 0x1F)
    else if b0 & 0xF0 == 0xE0 then (3, b0 & 0x0F)
    else if b0 & 0xF8 == 0xF0 then (4, b0 & 0x07)
    else (0, 0)
  }

  lemma LeadLeads(b0: bv8)
    ensures var (len, bits) := Lead(b0 as bv32);
            len != 0 ==> 2 <= len <= 4 && Leads(b0, len, bits, UTF8_MIN_FOR_LEN[len])
  {}

  /** Decodes one scalar; a failure consumes one byte, so decoding ends within the string's length. */
  method NextCodepoint(s: seq<bv8>, i: nat) returns (cp: bv32, next: nat)
    requires i < |s|
    ensures (cp, next) == Step(s, i)
  {
    AsciiOrNothing(s, i);
    LeadLeads(s[i]);
    hide CharLength, CharAt, ScalarAt, Leads, Lead, Continuation, Push, Rejected, Continued;
    var b0 := ByteAt(s, i);
    if b0 < 0x80 { return b0, i + 1; }
    var (len, bits) := Lead(b0);
    if len == 0 { return BAD_CODEPOINT, i + 1; }
    CharByBits(s, i, len, bits, UTF8_MIN_FOR_LEN[len]);
    if i + len > |s| { return BAD_CODEPOINT, i + 1; }
    cp := bits;
    for k := 1 to len
      invariant cp == Accumulated(s, i, bits, k) && Continued(s, i, k)
    {
      ContinuedMore(s, i, k, len);
      if !Continuation(s[i + k]) { return BAD_CODEPOINT, i + 1; }
      cp := Push(cp, s[i + k]);
    }
    if Rejected(cp, UTF8_MIN_FOR_LEN[len]) { return BAD_CODEPOINT, i + 1; }
    next := i + len;
  }

  lemma ContinuedMore(s: seq<bv8>, i: nat, k: nat, len: nat)
    requires 0 < k < len && i + len <= |s|
    ensures Continued(s, i, 1)
    ensures Continued(s, i, k + 1) <==> Continued(s, i, k) && Continuation(s[i + k])
    ensures !Continuation(s[i + k]) ==> !Continued(s, i, len)
  {
    hide Continuation;
  }

  // ---- Whole strings ----------------------------------------------------------------------------

  /** What decoding from `i` to the end yields. */
  function Scalars(s: seq<bv8>, i: nat): seq<bv32>
    requires i <= |s|
    decreases |s| - i
  {
    if i == |s| then [] else [Step(s, i).0] + Scalars(s, Step(s, i).1)
  }

  /** Well-formed text: UTF8-chars from `i` to the end. */
  predicate WellFormed(s: seq<bv8>, i: nat)
    requires i <= |s|
    decreases |s| - i
  {
    i == |s| || (CharLength(s, i) > 0 && WellFormed(s, Step(s, i).1))
  }

  /** Decoding `a` followed by `b` comes to a character that begins in `a` and ends in `b`. */
  predicate Straddles(a: seq<bv8>, b: seq<bv8>, i: nat)
    requires i <= |a|
    decreases |a| - i
  {
    i < |a| && (i + CharLength(a + b, i) > |a| || Straddles(a, b, Step(a + b, i).1))
  }

  lemma CharInPrefix(a: seq<bv8>, b: seq<bv8>, i: nat)
    requires i < |a|
    ensures CharLength(a, i) == if i + CharLength(a + b, i) <= |a| then CharLength(a + b, i) else 0
    ensures i + CharLength(a + b, i) <= |a| ==> Step(a + b, i) == Step(a, i)
  {
    var s := a + b;
    var n, m := CharLength(s, i), CharLength(a, i);
    if m > 0 {
      CharLengthIsUnique(a, i, m);
      assert s[i..i + m] == a[i..i + m];
      SameBytesSameChar(s, i, a, i, m);
      CharLengthIsUnique(s, i, m);
    }
    if n > 0 && i + n <= |a| {
      CharLengthIsUnique(s, i, n);
      assert s[i..i + n] == a[i..i + n];
      SameBytesSameChar(s, i, a, i, n);
      CharLengthIsUnique(a, i, n);
    }
    hide CharAt, CharLength, ScalarAt;
  }

  lemma CharInSuffix(a: seq<bv8>, b: seq<bv8>, j: nat)
    requires j < |b|
    ensures CharLength(a + b, |a| + j) == CharLength(b, j)
    ensures Step(a + b, |a| + j) == (Step(b, j).0, |a| + Step(b, j).1)
  {
    var s, i := a + b, |a| + j;
    var n, m := CharLength(s, i), CharLength(b, j);
    if m > 0 {
      CharLengthIsUnique(b, j, m);
      assert s[i..i + m] == b[j..j + m];
      SameBytesSameChar(s, i, b, j, m);
      CharLengthIsUnique(s, i, m);
    }
    if n > 0 {
      CharLengthIsUnique(s, i, n);
      assert s[i..i + n] == b[j..j + n];
      SameBytesSameChar(s, i, b, j, n);
      CharLengthIsUnique(b, j, n);
    }
    hide CharAt, CharLength, ScalarAt;
  }

  lemma {:induction false} ScalarsShift(a: seq<bv8>, b: seq<bv8>, j: nat)
    requires j <= |b|
    ensures Scalars(a + b, |a| + j) == Scalars(b, j)
    decreases |b| - j
  {
    if j < |b| {
      CharInSuffix(a, b, j);
      ScalarsShift(a, b, Step(b, j).1);
      ScalarsStep(b, j);
      ScalarsStep(a + b, |a| + j);
      hide *;
    }
  }

  /** Decoding a concatenation is decoding the parts, exactly when no character straddles the seam. */
  lemma {:induction false} DecodesInParts(a: seq<bv8>, b: seq<bv8>, i: nat)
    requires i <= |a|
    ensures Scalars(a + b, i) == Scalars(a, i) + Scalars(b, 0) <==> !Straddles(a, b, i)
    decreases |a| - i
  {
    ScalarsShift(a, b, 0);
    if i == |a| {
      assert Scalars(a, i) + Scalars(b, 0) == Scalars(b, 0);
    } else if i + CharLength(a + b, i) <= |a| {
      CharInPrefix(a, b, i);
      hide Step, CharLength, Scalars;
      var (head, next) := Step(a, i);
      DecodesInParts(a, b, next);
      ScalarsStep(a + b, i);
      ScalarsStep(a, i);
      assert Straddles(a, b, i) == Straddles(a, b, next);
      hide *;
      SameHead(head, Scalars(a + b, next), Scalars(a, next), Scalars(b, 0));
    } else {
      SeamDiffers(a, b, i);
    }
  }

  lemma SeamDiffers(a: seq<bv8>, b: seq<bv8>, i: nat)
    requires i < |a| && i + CharLength(a + b, i) > |a|
    ensures Scalars(a + b, i)[0] != BAD_CODEPOINT && Scalars(a, i)[0] == BAD_CODEPOINT
    ensures Scalars(a + b, i) != Scalars(a, i) + Scalars(b, 0) && Straddles(a, b, i)
  {
    CharInPrefix(a, b, i);
    var n := CharLength(a + b, i);
    CharLengthIsUnique(a + b, i, n);
    CharIsEncoding(a + b, i, n, Step(a + b, i).0);
    BadIsNoScalar();
    assert Scalars(a + b, i)[0] == Step(a + b, i).0 && Scalars(a, i)[0] == BAD_CODEPOINT;
    assert Straddles(a, b, i);
    hide *;
  }

  lemma SameHead<T>(x: T, s: seq<T>, t: seq<T>, u: seq<T>)
    ensures [x] + s == [x] + t + u <==> s == t + u
  {
    assert [x] + t + u == [x] + (t + u);
    if [x] + s == [x] + t + u { assert s == ([x] + s)[1..] && t + u == ([x] + (t + u))[1..]; }
  }

  lemma ScalarsStep(s: seq<bv8>, i: nat)
    requires i < |s|
    ensures Scalars(s, i) == [Step(s, i).0] + Scalars(s, Step(s, i).1)
  {
    hide Step;
  }

  /** Nothing straddles after well-formed text, or before a byte that is no continuation byte. */
  lemma {:induction false} NothingStraddles(a: seq<bv8>, b: seq<bv8>, i: nat)
    requires i <= |a|
    requires WellFormed(a, i) || b == [] || !Tail(b[0])
    ensures !Straddles(a, b, i)
    decreases |a| - i
  {
    if i < |a| {
      CharInPrefix(a, b, i);
      var n := CharLength(a + b, i);
      if i + n > |a| {
        CharLengthIsUnique(a + b, i, n);
        LaterBytesAreTails(a + b, i, n, |a|);
      }
      NothingStraddles(a, b, Step(a, i).1);
    }
  }

  lemma LaterBytesAreTails(s: seq<bv8>, i: nat, n: nat, k: nat)
    requires CharAt(s, i, n) && i < k < i + n
    ensures Tail(s[k])
  {}

  // ---- Whole strings and their scalars ------------------------------------------------------------

  predicate AllScalars(cps: seq<bv32>) { forall k :: 0 <= k < |cps| ==> IsScalar(cps[k]) }

  function EncodeAll(cps: seq<bv32>): seq<bv8>
    requires AllScalars(cps)
  {
    if cps == [] then [] else Encode(cps[0]) + EncodeAll(cps[1..])
  }

  lemma {:induction false} WellFormedShift(a: seq<bv8>, b: seq<bv8>, j: nat)
    requires j <= |b|
    ensures WellFormed(a + b, |a| + j) == WellFormed(b, j)
    decreases |b| - j
  {
    if j < |b| {
      CharInSuffix(a, b, j);
      WellFormedShift(a, b, Step(b, j).1);
    }
  }

  lemma FirstDecodes(cp: bv32, tail: seq<bv8>)
    requires IsScalar(cp)
    ensures var s, n := Encode(cp) + tail, |Encode(cp)|;
            n > 0 && CharLength(s, 0) == n && Step(s, 0) == (cp, n)
  {
    hide *;
    var s := Encode(cp) + tail;
    assert s[0..] == s && Encode(cp) <= s;
    SomeBytes(cp);
    EncodingIsStepped(s, 0, cp);
  }

  lemma SomeBytes(cp: bv32)
    requires IsScalar(cp)
    ensures |Encode(cp)| > 0
  {}

  /** Decoding undoes encoding: any sequence of scalars encodes to well-formed text, and comes back. */
  lemma {:induction false} EncodedDecodes(cps: seq<bv32>)
    requires AllScalars(cps)
    ensures WellFormed(EncodeAll(cps), 0) && Scalars(EncodeAll(cps), 0) == cps
  {
    if cps != [] {
      var a, b := Encode(cps[0]), EncodeAll(cps[1..]);
      EncodedDecodes(cps[1..]);
      ScalarsShift(a, b, 0);
      WellFormedShift(a, b, 0);
      FirstDecodes(cps[0], b);
      assert EncodeAll(cps) == a + b;
      hide Encode, Step, CharLength, IsScalar, EncodeAll;
      assert [cps[0]] + cps[1..] == cps;
    }
  }

  lemma EncodeAllCons(cp: bv32, later: seq<bv32>)
    requires AllScalars(later)
    ensures IsScalar(cp) ==> AllScalars([cp] + later) && EncodeAll([cp] + later) == Encode(cp) + EncodeAll(later)
  {
    hide Encode, IsScalar;
    assert ([cp] + later)[1..] == later;
  }

  /** Encoding undoes decoding, on well-formed text; so that is exactly the text encoders make. */
  lemma {:induction false} WellFormedIsEncoded(s: seq<bv8>, i: nat)
    requires i <= |s| && WellFormed(s, i)
    ensures AllScalars(Scalars(s, i)) && EncodeAll(Scalars(s, i)) == s[i..]
    decreases |s| - i
  {
    if i < |s| {
      var (cp, next) := Step(s, i);
      WellFormedIsEncoded(s, next);
      CharLengthIsUnique(s, i, CharLength(s, i));
      CharIsEncoding(s, i, CharLength(s, i), cp);
      ScalarsStep(s, i);
      EncodeAllCons(cp, Scalars(s, next));
      hide *;
      assert s[i..] == s[i..next] + s[next..];
    }
  }
}
