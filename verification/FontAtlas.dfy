/** Looking glyphs up by code point, and measuring text. Rectangles and offsets are not modelled: a glyph
    is its name and its advance, rounded. */
module FontAtlas {
  import opened Common
  import opened Utf8

  const FIRST_GLYPH: nat := 32
  const GLYPH_COUNT: nat := 95
  const REPLACEMENT_GLYPH: nat := '?' as nat

  datatype Glyph = Glyph(name: nat, advance: int)
  datatype SparseGlyph = SparseGlyph(cp: nat, glyph: Glyph)

  /** The dense table of printable ASCII, and the rest sorted by code point. */
  datatype Atlas = Atlas(baked: bool, glyphs: seq<Glyph>, extra: seq<SparseGlyph>) {
    predicate Valid() {
      baked ==> |glyphs| == GLYPH_COUNT && forall i, j :: 0 <= i < j < |extra| ==> extra[i].cp <= extra[j].cp
    }
  }

  /** The first entry for `cp`, searching from the front. */
  function FirstFor(extra: seq<SparseGlyph>, cp: nat): Option<Glyph> {
    if extra == [] then None
    else if extra[0].cp == cp then Some(extra[0].glyph)
    else FirstFor(extra[1..], cp)
  }

  predicate IsDense(cp: nat) { cp >= FIRST_GLYPH && cp < FIRST_GLYPH + GLYPH_COUNT }

  /** The glyph baked for `cp`, found by looking at every entry. */
  function GlyphOf(atlas: Atlas, cp: nat): Option<Glyph>
    requires atlas.Valid()
  {
    if !atlas.baked then None
    else if IsDense(cp) then Some(atlas.glyphs[cp - FIRST_GLYPH])
    else FirstFor(atlas.extra, cp)
  }

  /** What is drawn for `cp`: its own glyph, else that of '?'. */
  function DrawnFor(atlas: Atlas, cp: nat): Option<Glyph>
    requires atlas.Valid()
  {
    var own := GlyphOf(atlas, cp);
    if own.Some? then own else GlyphOf(atlas, REPLACEMENT_GLYPH)
  }

  lemma AlwaysDrawn(atlas: Atlas, cp: nat)
    requires atlas.Valid()
    ensures DrawnFor(atlas, cp).Some? <==> atlas.baked
  {
    assert IsDense(REPLACEMENT_GLYPH);
  }

  /** Whatever splits the table into smaller and not smaller finds the first entry. */
  lemma {:induction false} FirstAt(extra: seq<SparseGlyph>, cp: nat, k: nat)
    requires k <= |extra| && forall i, j :: 0 <= i < j < |extra| ==> extra[i].cp <= extra[j].cp
    requires forall i :: 0 <= i < k ==> extra[i].cp < cp
    requires forall i :: k <= i < |extra| ==> extra[i].cp >= cp
    ensures FirstFor(extra, cp) == if k < |extra| && extra[k].cp == cp then Some(extra[k].glyph) else None
  {
    if k > 0 {
      FirstAt(extra[1..], cp, k - 1);
    } else if extra != [] && extra[0].cp != cp {
      NoneFor(extra, cp);
    }
  }

  lemma {:induction false} NoneFor(extra: seq<SparseGlyph>, cp: nat)
    requires forall i :: 0 <= i < |extra| ==> extra[i].cp > cp
    ensures FirstFor(extra, cp) == None
  {
    if extra != [] { NoneFor(extra[1..], cp); }
  }

  /** The dense table by subtraction, the rest by binary search: the same glyph as looking at every entry. */
  method ExactGlyphFor(atlas: Atlas, cp: nat) returns (glyph: Option<Glyph>)
    requires atlas.Valid()
    ensures glyph == GlyphOf(atlas, cp)
  {
    if !atlas.baked { return None; }
    if IsDense(cp) { return Some(atlas.glyphs[cp - FIRST_GLYPH]); }
    hide IsDense;
    var it := LowerBound(atlas.extra, cp);
    FirstAt(atlas.extra, cp, it);
    glyph := if it < |atlas.extra| && atlas.extra[it].cp == cp then Some(atlas.extra[it].glyph) else None;
  }

  method LowerBound(extra: seq<SparseGlyph>, cp: nat) returns (lo: nat)
    requires forall i, j :: 0 <= i < j < |extra| ==> extra[i].cp <= extra[j].cp
    ensures lo <= |extra|
    ensures forall i :: 0 <= i < lo ==> extra[i].cp < cp
    ensures forall i :: lo <= i < |extra| ==> extra[i].cp >= cp
  {
    lo := 0;
    var hi := |extra|;
    while lo < hi
      invariant 0 <= lo <= hi <= |extra|
      invariant forall i :: 0 <= i < lo ==> extra[i].cp < cp
      invariant forall i :: hi <= i < |extra| ==> extra[i].cp >= cp
    {
      var mid := lo + (hi - lo) / 2;
      if extra[mid].cp < cp { lo := mid + 1; } else { hi := mid; }
    }
  }

  /** `entry` is the first for `cp` beyond ASCII. */
  predicate FirstEntry(extra: seq<SparseGlyph>, cp: nat, entry: nat) {
    entry < |extra| && extra[entry].cp == cp && forall j :: 0 <= j < entry ==> extra[j].cp != cp
  }

  /** What is drawn, by the tables: the glyph at its place for printable ASCII, the entry of a code point that has
      one, and for any other the question mark, which stands 31 places after the space. */
  lemma DrawnByTheTables(atlas: Atlas, cp: nat)
    requires atlas.Valid() && atlas.baked
    ensures ' ' as nat <= cp <= '~' as nat ==> DrawnFor(atlas, cp) == Some(atlas.glyphs[cp - ' ' as nat])
    ensures cp < ' ' as nat || cp > '~' as nat ==>
              (forall entry: nat :: FirstEntry(atlas.extra, cp, entry) ==>
                 DrawnFor(atlas, cp) == Some(atlas.extra[entry].glyph))
    ensures (cp < ' ' as nat || cp > '~' as nat) && (forall i :: 0 <= i < |atlas.extra| ==> atlas.extra[i].cp != cp) ==>
              DrawnFor(atlas, cp) == Some(atlas.glyphs[31])
  {
    forall entry: nat | FirstEntry(atlas.extra, cp, entry)
      ensures FirstFor(atlas.extra, cp) == Some(atlas.extra[entry].glyph)
    {
      FirstIs(atlas.extra, cp, entry);
    }
    if forall i :: 0 <= i < |atlas.extra| ==> atlas.extra[i].cp != cp { NotListed(atlas.extra, cp); }
  }

  lemma {:induction false} FirstIs(extra: seq<SparseGlyph>, cp: nat, entry: nat)
    requires FirstEntry(extra, cp, entry)
    ensures FirstFor(extra, cp) == Some(extra[entry].glyph)
    decreases entry
  {
    if entry > 0 {
      assert forall j :: 0 <= j < entry - 1 ==> extra[1..][j] == extra[j + 1];
      FirstIs(extra[1..], cp, entry - 1);
    }
  }

  lemma {:induction false} NotListed(extra: seq<SparseGlyph>, cp: nat)
    requires forall i :: 0 <= i < |extra| ==> extra[i].cp != cp
    ensures FirstFor(extra, cp) == None
  {
    if extra != [] { NotListed(extra[1..], cp); }
  }

  method GlyphFor(atlas: Atlas, cp: nat) returns (glyph: Option<Glyph>)
    requires atlas.Valid()
    ensures glyph == DrawnFor(atlas, cp)
  {
    hide GlyphOf;
    glyph := ExactGlyphFor(atlas, cp);
    if glyph.None? { glyph := ExactGlyphFor(atlas, REPLACEMENT_GLYPH); }
  }

  // ---- Measuring --------------------------------------------------------------------------------

  function Advance(atlas: Atlas, cp: bv32): int
    requires atlas.Valid()
  {
    var g := DrawnFor(atlas, cp as nat);
    if g.Some? then g.value.advance else 0
  }

  function Width(atlas: Atlas, cps: seq<bv32>): int
    requires atlas.Valid()
  {
    if cps == [] then 0 else Advance(atlas, cps[0]) + Width(atlas, cps[1..])
  }

  /** A text of one printable ASCII character is as wide as that character's own glyph says; `WidthAdds` does
      the rest. */
  lemma WidthOfOne(atlas: Atlas, cp: bv32)
    requires atlas.Valid() && atlas.baked
    ensures ' ' as nat <= cp as nat <= '~' as nat ==> Width(atlas, [cp]) == atlas.glyphs[cp as nat - ' ' as nat].advance
    ensures forall entry: nat :: FirstEntry(atlas.extra, cp as nat, entry) && !IsDense(cp as nat) ==>
              Width(atlas, [cp]) == atlas.extra[entry].glyph.advance
  {
    DrawnByTheTables(atlas, cp as nat);
    assert [cp][1..] == [];
    hide DrawnFor;
  }

  method Measure(atlas: Atlas, text: seq<bv8>) returns (width: int)
    requires atlas.Valid()
    ensures width == Width(atlas, Scalars(text, 0))
  {
    if !atlas.baked {
      UnbakedIsFlat(atlas, Scalars(text, 0));
      return 0;
    }
    width := 0;
    var i := 0;
    while i < |text|
      invariant i <= |text|
      invariant width + Width(atlas, Scalars(text, i)) == Width(atlas, Scalars(text, 0))
    {
      hide Step, DrawnFor;
      var cp, next := NextCodepoint(text, i);
      assert Scalars(text, i) == [cp] + Scalars(text, next);
      assert ([cp] + Scalars(text, next))[1..] == Scalars(text, next);
      var g := GlyphFor(atlas, cp as nat);
      if g.Some? { width := width + g.value.advance; }
      i := next;
    }
  }

  lemma {:induction false} UnbakedIsFlat(atlas: Atlas, cps: seq<bv32>)
    requires atlas.Valid() && !atlas.baked
    ensures Width(atlas, cps) == 0
  {
    if cps != [] { UnbakedIsFlat(atlas, cps[1..]); }
  }

  lemma {:induction false} WidthAdds(atlas: Atlas, a: seq<bv32>, b: seq<bv32>)
    requires atlas.Valid()
    ensures Width(atlas, a + b) == Width(atlas, a) + Width(atlas, b)
  {
    hide Advance;
    if a == [] {
      assert a + b == b;
    } else {
      WidthAdds(atlas, a[1..], b);
      assert (a + b)[1..] == a[1..] + b;
    }
  }

  /** Widths add up over a split that no character straddles: after well-formed text, and before any byte
      that is not a continuation byte, whatever comes on the other side. */
  lemma MeasureIsAdditive(atlas: Atlas, a: seq<bv8>, b: seq<bv8>)
    requires atlas.Valid()
    requires !Straddles(a, b, 0) || WellFormed(a, 0) || b == [] || !Tail(b[0])
    ensures Width(atlas, Scalars(a + b, 0)) == Width(atlas, Scalars(a, 0)) + Width(atlas, Scalars(b, 0))
  {
    if WellFormed(a, 0) || b == [] || !Tail(b[0]) { NothingStraddles(a, b, 0); }
    DecodesInParts(a, b, 0);
    WidthAdds(atlas, Scalars(a, 0), Scalars(b, 0));
  }

  /** They add up for every atlas exactly when none straddles: otherwise an atlas that has the
      straddling characters tells the difference. */
  lemma AdditiveForAllIff(a: seq<bv8>, b: seq<bv8>)
    ensures !Straddles(a, b, 0) <==>
            forall atlas: Atlas :: atlas.Valid() ==>
              Width(atlas, Scalars(a + b, 0)) == Width(atlas, Scalars(a, 0)) + Width(atlas, Scalars(b, 0))
  {
    forall atlas: Atlas | atlas.Valid() && !Straddles(a, b, 0)
      ensures Width(atlas, Scalars(a + b, 0)) == Width(atlas, Scalars(a, 0)) + Width(atlas, Scalars(b, 0))
    {
      MeasureIsAdditive(atlas, a, b);
    }
    if Straddles(a, b, 0) {
      SplitLoses(a, b, 0);
      UnitWidth(Scalars(a + b, 0));
      UnitWidth(Scalars(a, 0));
      UnitWidth(Scalars(b, 0));
      assert Unit().Valid();
    }
  }

  /** Every glyph one wide. */
  function Unit(): Atlas {
    Atlas(true, seq(GLYPH_COUNT, i => Glyph(0, 1)), [])
  }

  lemma {:induction false} UnitWidth(cps: seq<bv32>)
    ensures Unit().Valid() && Width(Unit(), cps) == |cps|
  {
    if cps != [] {
      UnitWidth(cps[1..]);
      UnitAdvance(cps[0]);
    }
  }

  lemma UnitAdvance(cp: bv32)
    ensures Unit().Valid() && Advance(Unit(), cp) == 1
  {
    UnitDrawn(cp as nat);
    hide DrawnFor, Unit;
  }

  lemma UnitDrawn(cp: nat)
    ensures Unit().Valid() && DrawnFor(Unit(), cp) == Some(Glyph(0, 1))
  {
    assert IsDense(REPLACEMENT_GLYPH);
  }

  /** A character that straddles the seam falls apart into more code points when the parts are decoded. */
  lemma {:induction false} SplitLoses(a: seq<bv8>, b: seq<bv8>, i: nat)
    requires i <= |a| && Straddles(a, b, i)
    ensures |Scalars(a + b, i)| < |Scalars(a, i)| + |Scalars(b, 0)|
    decreases |a| - i
  {
    CharInPrefix(a, b, i);
    var n := CharLength(a + b, i);
    if i + n <= |a| {
      SplitLoses(a, b, Step(a, i).1);
    } else {
      var t := i + n - |a|;
      CharLengthIsUnique(a + b, i, n);
      forall k | 0 <= k < t
        ensures Tail(b[k])
      {
        LaterBytesAreTails(a + b, i, n, |a| + k);
      }
      TailsStandAlone(b, 0, t);
      ScalarsShift(a, b, t);
      assert Scalars(a + b, i) == [Step(a + b, i).0] + Scalars(a + b, |a| + t);
    }
  }

  /** Such texts exist: an e acute cut between its two bytes measures wider in parts. */
  lemma CutAccentMeasuresWider()
    ensures Straddles([0xC3], [0xA9], 0)
    ensures Unit().Valid() &&
            Width(Unit(), Scalars([0xC3, 0xA9], 0)) < Width(Unit(), Scalars([0xC3], 0)) + Width(Unit(), Scalars([0xA9], 0))
  {
    var a: seq<bv8>, b: seq<bv8> := [0xC3], [0xA9];
    assert a + b == [0xC3, 0xA9];
    assert CharAt(a + b, 0, 2);
    CharLengthIsUnique(a + b, 0, 2);
    SplitLoses(a, b, 0);
    hide *;
    UnitWidth(Scalars(a + b, 0));
    UnitWidth(Scalars(a, 0));
    UnitWidth(Scalars(b, 0));
  }

  /** A continuation byte begins no character, so each is a code point of its own. */
  lemma {:induction false} TailsStandAlone(b: seq<bv8>, j: nat, t: nat)
    requires j <= t <= |b| && forall k :: j <= k < t ==> Tail(b[k])
    ensures |Scalars(b, j)| == t - j + |Scalars(b, t)|
    decreases t - j
  {
    if j < t {
      TailBeginsNothing(b, j);
      TailsStandAlone(b, j + 1, t);
    }
  }

  lemma TailBeginsNothing(b: seq<bv8>, j: nat)
    requires j < |b| && Tail(b[j])
    ensures CharLength(b, j) == 0
  {}

  // ---- Coverage ---------------------------------------------------------------------------------

  predicate AllMapped(atlas: Atlas, cps: seq<bv32>)
    requires atlas.Valid()
  {
    forall k :: 0 <= k < |cps| ==> GlyphOf(atlas, cps[k] as nat).Some?
  }

  /** Whether `text` is well-formed and every scalar of it has a glyph of its own. */
  method HasGlyphFor(atlas: Atlas, text: seq<bv8>) returns (has: bool)
    requires atlas.Valid()
    ensures has <==> atlas.baked && WellFormed(text, 0) && AllMapped(atlas, Scalars(text, 0))
  {
    if !atlas.baked { return false; }
    var i := 0;
    ghost var seen: seq<bv32> := [];
    while i < |text|
      invariant i <= |text|
      invariant Scalars(text, 0) == seen + Scalars(text, i)
      invariant WellFormed(text, 0) == WellFormed(text, i)
      invariant AllMapped(atlas, seen)
    {
      hide GlyphOf;
      ghost var here := CharLength(text, i);
      assert WellFormed(text, i) <==> here > 0 && WellFormed(text, Step(text, i).1);
      StepIsBadIff(text, i);
      hide Step, CharLength;
      var cp, next := NextCodepoint(text, i);
      assert Scalars(text, i) == [cp] + Scalars(text, next);
      assert Scalars(text, 0)[|seen|] == cp;
      if cp == BAD_CODEPOINT { return false; }
      var g := ExactGlyphFor(atlas, cp as nat);
      if g.None? { return false; }
      seen := seen + [cp];
      i := next;
    }
    assert Scalars(text, 0) == seen;
    has := true;
  }

  lemma StepIsBadIff(s: seq<bv8>, i: nat)
    requires i < |s|
    ensures Step(s, i).0 == BAD_CODEPOINT <==> CharLength(s, i) == 0
  {
    var n := CharLength(s, i);
    if n > 0 {
      CharLengthIsUnique(s, i, n);
      CharIsEncoding(s, i, n, Step(s, i).0);
      BadIsNoScalar();
    }
  }
}
