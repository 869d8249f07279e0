/** Whether a GIF has more than one image: the block walker, against the block grammar of GIF89a
    (sections 15 to 22 and 27). */
module GifAnimation {
  import opened Common
  import opened ByteIo

  const EXTENSION: byte := 0x21
  const IMAGE_SEPARATOR: byte := 0x2C
  const TRAILER: byte := 0x3B

  // ---- The grammar, as what a writer puts down ------------------------------------------------

  /** Extensions of every kind, and image descriptors with their colour table and data. */
  datatype Block =
    | Extension(kind: byte, subs: seq<seq<byte>>)
    | Image(frame: seq<byte>, packed: byte, table: seq<byte>, minCode: byte, subs: seq<seq<byte>>)

  datatype Header = Header(version: seq<byte>, size: seq<byte>, packed: byte, colours: seq<byte>, table: seq<byte>)

  /** Bytes of the colour table a packed field announces (sections 18 and 20): a field below 128 none; otherwise the
      low three bits say how large, from two entries of three bytes to 256. */
  function TableSize(packed: byte): nat { if packed < 128 then 0 else [6, 12, 24, 48, 96, 192, 384, 768][packed % 8] }

  /** The same on bits: bit 7 says whether there is one, and it has 2^(N+1) entries, N being the low three bits. */
  lemma TableOnBits(flags: bv8)
    ensures TableSize(flags as nat) == if flags & 0x80 == 0 then 0 else ((1 as bv16) << ((flags & 7) + 1)) as nat * 3
  {
    FlagsAsNumbers(flags);
    EntriesOfThree(flags & 7);
  }

  lemma FlagsAsNumbers(flags: bv8)
    ensures flags & 0x80 == 0 <==> flags as nat < 128
    ensures (flags & 7) as nat == flags as nat % 8
  {}

  lemma EntriesOfThree(n: bv8)
    requires n < 8
    ensures ((1 as bv16) << (n + 1)) as nat * 3 == [6, 12, 24, 48, 96, 192, 384, 768][n as nat]
  {
    assert n == 0 || n == 1 || n == 2 || n == 3 || n == 4 || n == 5 || n == 6 || n == 7;
  }

  /** Data sub-blocks (section 15): each a length byte and that many bytes, ended by a zero length. */
  function PrintSubs(subs: seq<seq<byte>>): seq<byte> {
    if subs == [] then [0] else [|subs[0]| % 256] + (subs[0] + PrintSubs(subs[1..]))
  }

  predicate FitsSubs(subs: seq<seq<byte>>) { forall i :: 0 <= i < |subs| ==> 0 < |subs[i]| < 256 }

  function PrintBlock(b: Block): seq<byte> {
    match b
    case Extension(l, subs) => [EXTENSION] + ([l] + PrintSubs(subs))
    case Image(frame, packed, table, minCode, subs) =>
      [IMAGE_SEPARATOR] + (frame + ([packed] + (table + ([minCode] + PrintSubs(subs)))))
  }

  predicate FitsBlock(b: Block) {
    FitsSubs(b.subs) && (b.Image? ==> |b.frame| == 8 && |b.table| == TableSize(b.packed))
  }

  predicate FitsBlocks(blocks: seq<Block>) { forall i :: 0 <= i < |blocks| ==> FitsBlock(blocks[i]) }

  function PrintBlocks(blocks: seq<Block>): seq<byte> {
    if blocks == [] then [] else PrintBlock(blocks[0]) + PrintBlocks(blocks[1..])
  }

  function Images(blocks: seq<Block>): nat {
    if blocks == [] then 0 else (if blocks[0].Image? then 1 else 0) + Images(blocks[1..])
  }

  /** The signature, any version, the logical screen descriptor and its colour table. */
  function PrintHeader(h: Header): seq<byte> {
    ['G' as byte, 'I' as byte, 'F' as byte] + (h.version + (h.size + ([h.packed] + (h.colours + h.table))))
  }

  predicate FitsHeader(h: Header) {
    |h.version| == 3 && |h.size| == 4 && |h.colours| == 2 && |h.table| == TableSize(h.packed)
  }

  // ---- The walk, on values ------------------------------------------------------------------------

  function ParseSubs(s: seq<byte>): Parsed<seq<seq<byte>>>
    decreases |s|
  {
    if s == [] then Fail
    else if s[0] == 0 then Got([], s[1..])
    else match ParseBytes(s[1..], s[0])
      case Fail => Fail
      case Got(sub, rest) =>
        match ParseSubs(rest)
        case Fail => Fail
        case Got(subs, rest2) => Got([sub] + subs, rest2)
  }

  function ParseExtension(s: seq<byte>): Parsed<Block> {
    match ParseByte(s)
    case Fail => Fail
    case Got(l, rest) =>
      match ParseSubs(rest)
      case Fail => Fail
      case Got(subs, rest2) => Got(Extension(l, subs), rest2)
  }

  function ParseImage(s: seq<byte>): Parsed<Block> {
    match ParseBytes(s, 8)
    case Fail => Fail
    case Got(frame, rest) =>
      match ParseByte(rest)
      case Fail => Fail
      case Got(packed, rest2) =>
        match ParseBytes(rest2, TableSize(packed))
        case Fail => Fail
        case Got(table, rest3) =>
          match ParseByte(rest3)
          case Fail => Fail
          case Got(minCode, rest4) =>
            match ParseSubs(rest4)
            case Fail => Fail
            case Got(subs, rest5) => Got(Image(frame, packed, table, minCode, subs), rest5)
  }

  lemma {:induction false} SubsShrink(s: seq<byte>)
    ensures ParseSubs(s).Got? ==> |ParseSubs(s).rest| < |s|
    decreases |s|
  {
    if s != [] && s[0] != 0 && ParseBytes(s[1..], s[0]).Got? { SubsShrink(ParseBytes(s[1..], s[0]).rest); }
  }

  lemma BlocksShrink(s: seq<byte>)
    ensures ParseExtension(s).Got? ==> |ParseExtension(s).rest| < |s|
    ensures ParseImage(s).Got? ==> |ParseImage(s).rest| < |s|
  {
    if ParseByte(s).Got? { SubsShrink(ParseByte(s).rest); }
    if ParseImage(s).Got? {
      var packed := ParseByte(ParseBytes(s, 8).rest);
      SubsShrink(ParseByte(ParseBytes(packed.rest, TableSize(packed.value)).rest).rest);
    }
  }

  /** Whether the blocks in `s`, `frames` images having gone before, come to a second image. */
  function Walk(s: seq<byte>, frames: nat): bool
    decreases |s|
  {
    BlocksShrink(s[Min(1, |s|)..]);
    if s == [] || s[0] == TRAILER then false
    else if s[0] == EXTENSION then
      match ParseExtension(s[1..])
      case Fail => false
      case Got(_, rest) => Walk(rest, frames)
    else if s[0] == IMAGE_SEPARATOR then
      if frames + 1 >= 2 then true
      else match ParseImage(s[1..])
        case Fail => false
        case Got(_, rest) => Walk(rest, frames + 1)
    else false
  }

  function ParseHeader(s: seq<byte>): Parsed<Header> {
    match ParseBytes(s, 3)
    case Fail => Fail
    case Got(gif, rest) =>
      if gif != ['G' as byte, 'I' as byte, 'F' as byte] then Fail
      else match ParseBytes(rest, 3)
        case Fail => Fail
        case Got(version, rest2) =>
          match ParseBytes(rest2, 4)
          case Fail => Fail
          case Got(size, rest3) =>
            match ParseByte(rest3)
            case Fail => Fail
            case Got(packed, rest4) =>
              match ParseBytes(rest4, 2)
              case Fail => Fail
              case Got(colours, rest5) =>
                match ParseBytes(rest5, TableSize(packed))
                case Fail => Fail
                case Got(table, rest6) => Got(Header(version, size, packed, colours, table), rest6)
  }

  function Animated(data: seq<byte>): bool {
    match ParseHeader(data)
    case Fail => false
    case Got(_, rest) => Walk(rest, 0)
  }

  // ---- Parsing undoes printing, and the other way round -------------------------------------------

  lemma SubStep(sub: seq<byte>, more: seq<byte>)
    requires 0 < |sub| < 256
    ensures ParseSubs([|sub|] + (sub + more)) ==
            match ParseSubs(more) case Fail => Fail case Got(subs, rest) => Got([sub] + subs, rest)
  {
    assert ([|sub|] + (sub + more))[1..] == sub + more;
    BytesUndone(sub, more);
  }

  lemma {:induction false} SubsUndone(subs: seq<seq<byte>>, tail: seq<byte>)
    requires FitsSubs(subs)
    ensures ParseSubs(PrintSubs(subs) + tail) == Got(subs, tail)
  {
    if subs == [] {
      assert ([0] + tail)[1..] == tail;
    } else {
      var sub, rest := subs[0], subs[1..];
      SubsUndone(rest, tail);
      assert PrintSubs(subs) == [|sub|] + (sub + PrintSubs(rest));
      assert 0 < |sub| < 256;
      hide *;
      Regroup([|sub|], sub + PrintSubs(rest), tail);
      Regroup(sub, PrintSubs(rest), tail);
      SubStep(sub, PrintSubs(rest) + tail);
      HeadAndRest(subs);
    }
  }

  lemma HeadAndRest<T>(s: seq<T>)
    requires s != []
    ensures [s[0]] + s[1..] == s
  {}

  lemma {:induction false} SubsExact(s: seq<byte>)
    ensures var p := ParseSubs(s); p.Got? ==> FitsSubs(p.value) && s == PrintSubs(p.value) + p.rest
    decreases |s|
  {
    if ParseSubs(s).Got? && s[0] != 0 {
      var sub := ParseBytes(s[1..], s[0]);
      BytesExact(s[1..], s[0]);
      SubsExact(sub.rest);
      var later := ParseSubs(sub.rest);
      var all := ParseSubs(s).value;
      assert all == [sub.value] + later.value && all[1..] == later.value;
      Regroup([s[0]], sub.value + PrintSubs(later.value), later.rest);
      Regroup(sub.value, PrintSubs(later.value), later.rest);
    }
  }

  lemma ExtensionUndone(b: Block, tail: seq<byte>)
    requires b.Extension? && FitsBlock(b)
    ensures PrintBlock(b) + tail == [EXTENSION] + (PrintBlock(b) + tail)[1..]
    ensures ParseExtension((PrintBlock(b) + tail)[1..]) == Got(b, tail)
  {
    hide ParseSubs, PrintSubs, FitsSubs, ParseByte;
    var subs := PrintSubs(b.subs);
    Regroup([EXTENSION], [b.kind] + subs, tail);
    Regroup([b.kind], subs, tail);
    ByteUndone(b.kind, subs + tail);
    SubsUndone(b.subs, tail);
  }

  lemma ImageUndone(b: Block, tail: seq<byte>)
    requires b.Image? && FitsBlock(b)
    ensures PrintBlock(b) + tail == [IMAGE_SEPARATOR] + (PrintBlock(b) + tail)[1..]
    ensures ParseImage((PrintBlock(b) + tail)[1..]) == Got(b, tail)
  {
    hide ParseSubs, PrintSubs, FitsSubs, ParseByte, ParseBytes;
    var subs := PrintSubs(b.subs);
    Regroup([IMAGE_SEPARATOR], b.frame + ([b.packed] + (b.table + ([b.minCode] + subs))), tail);
    Regroup(b.frame, [b.packed] + (b.table + ([b.minCode] + subs)), tail);
    Regroup([b.packed], b.table + ([b.minCode] + subs), tail);
    Regroup(b.table, [b.minCode] + subs, tail);
    Regroup([b.minCode], subs, tail);
    BytesUndone(b.frame, [b.packed] + (b.table + ([b.minCode] + (subs + tail))));
    ByteUndone(b.packed, b.table + ([b.minCode] + (subs + tail)));
    BytesUndone(b.table, [b.minCode] + (subs + tail));
    ByteUndone(b.minCode, subs + tail);
    SubsUndone(b.subs, tail);
  }

  lemma ExtensionExact(s: seq<byte>)
    ensures var p := ParseExtension(s);
            p.Got? ==> p.value.Extension? && FitsBlock(p.value) && [EXTENSION] + s == PrintBlock(p.value) + p.rest
  {
    if ParseExtension(s).Got? {
      hide ParseSubs, PrintSubs, FitsSubs;
      var l := ParseByte(s);
      ByteExact(s);
      SubsExact(l.rest);
      var subs := ParseSubs(l.rest);
      Regroup([EXTENSION], [l.value] + PrintSubs(subs.value), subs.rest);
      Regroup([l.value], PrintSubs(subs.value), subs.rest);
    }
  }

  lemma ImageExact(s: seq<byte>)
    ensures var p := ParseImage(s);
            p.Got? ==> p.value.Image? && FitsBlock(p.value) && [IMAGE_SEPARATOR] + s == PrintBlock(p.value) + p.rest
  {
    if ParseImage(s).Got? {
      hide ParseSubs, PrintSubs, FitsSubs, ParseByte, ParseBytes;
      var frame := ParseBytes(s, 8);
      BytesExact(s, 8);
      var packed := ParseByte(frame.rest);
      ByteExact(frame.rest);
      var table := ParseBytes(packed.rest, TableSize(packed.value));
      BytesExact(packed.rest, TableSize(packed.value));
      var minCode := ParseByte(table.rest);
      ByteExact(table.rest);
      var subs := ParseSubs(minCode.rest);
      SubsExact(minCode.rest);
      var t := PrintSubs(subs.value);
      hide TableSize;
      Regroup([minCode.value], t, subs.rest);
      Regroup(table.value, [minCode.value] + t, subs.rest);
      Regroup([packed.value], table.value + ([minCode.value] + t), subs.rest);
      Regroup(frame.value, [packed.value] + (table.value + ([minCode.value] + t)), subs.rest);
      Regroup([IMAGE_SEPARATOR], frame.value + ([packed.value] + (table.value + ([minCode.value] + t))), subs.rest);
    }
  }

  lemma HeaderUndone(h: Header, tail: seq<byte>)
    requires FitsHeader(h)
    ensures ParseHeader(PrintHeader(h) + tail) == Got(h, tail)
  {
    hide ParseByte, ParseBytes, TableSize;
    var gif := ['G' as byte, 'I' as byte, 'F' as byte];
    Regroup(gif, h.version + (h.size + ([h.packed] + (h.colours + h.table))), tail);
    Regroup(h.version, h.size + ([h.packed] + (h.colours + h.table)), tail);
    Regroup(h.size, [h.packed] + (h.colours + h.table), tail);
    Regroup([h.packed], h.colours + h.table, tail);
    Regroup(h.colours, h.table, tail);
    BytesUndone(gif, h.version + (h.size + ([h.packed] + (h.colours + (h.table + tail)))));
    BytesUndone(h.version, h.size + ([h.packed] + (h.colours + (h.table + tail))));
    BytesUndone(h.size, [h.packed] + (h.colours + (h.table + tail)));
    ByteUndone(h.packed, h.colours + (h.table + tail));
    BytesUndone(h.colours, h.table + tail);
    BytesUndone(h.table, tail);
  }

  lemma HeaderExact(s: seq<byte>)
    ensures var p := ParseHeader(s); p.Got? ==> FitsHeader(p.value) && s == PrintHeader(p.value) + p.rest
  {
    if ParseHeader(s).Got? {
      hide ParseByte, ParseBytes, TableSize;
      var gif := ParseBytes(s, 3);
      BytesExact(s, 3);
      var version := ParseBytes(gif.rest, 3);
      BytesExact(gif.rest, 3);
      var size := ParseBytes(version.rest, 4);
      BytesExact(version.rest, 4);
      var packed := ParseByte(size.rest);
      ByteExact(size.rest);
      var colours := ParseBytes(packed.rest, 2);
      BytesExact(packed.rest, 2);
      var table := ParseBytes(colours.rest, TableSize(packed.value));
      BytesExact(colours.rest, TableSize(packed.value));
      Regroup(colours.value, table.value, table.rest);
      Regroup([packed.value], colours.value + table.value, table.rest);
      Regroup(size.value, [packed.value] + (colours.value + table.value), table.rest);
      Regroup(version.value, size.value + ([packed.value] + (colours.value + table.value)), table.rest);
      Regroup(gif.value, version.value + (size.value + ([packed.value] + (colours.value + table.value))), table.rest);
    }
  }

  // ---- The walk against the grammar ---------------------------------------------------------------

  /** One block further. */
  lemma WalkPastExtension(s: seq<byte>, frames: nat)
    requires ParseExtension(s).Got?
    ensures Walk([EXTENSION] + s, frames) == Walk(ParseExtension(s).rest, frames)
  {
    assert ([EXTENSION] + s)[1..] == s;
    hide ParseExtension, ParseImage;
  }

  lemma WalkPastImage(s: seq<byte>, frames: nat)
    requires ParseImage(s).Got?
    ensures Walk([IMAGE_SEPARATOR] + s, frames) == (frames >= 1 || Walk(ParseImage(s).rest, frames + 1))
  {
    assert ([IMAGE_SEPARATOR] + s)[1..] == s;
    hide ParseExtension, ParseImage;
  }

  lemma WalkPastBlock(b: Block, tail: seq<byte>, frames: nat)
    requires FitsBlock(b)
    ensures Walk(PrintBlock(b) + tail, frames) ==
            if b.Image? then frames >= 1 || Walk(tail, frames + 1) else Walk(tail, frames)
  {
    var s := PrintBlock(b) + tail;
    if b.Image? {
      ImageUndone(b, tail);
      WalkPastImage(s[1..], frames);
    } else {
      ExtensionUndone(b, tail);
      WalkPastExtension(s[1..], frames);
    }
    hide *;
  }

  /** Walking over whole blocks only counts the images among them. */
  lemma {:induction false} WalkOverBlocks(blocks: seq<Block>, tail: seq<byte>, frames: nat)
    requires FitsBlocks(blocks)
    ensures Walk(PrintBlocks(blocks) + tail, frames) ==
            ((frames + Images(blocks) >= 2 && Images(blocks) > 0) || Walk(tail, frames + Images(blocks)))
  {
    hide Walk, PrintBlock, FitsBlock;
    if blocks == [] {
      assert PrintBlocks(blocks) + tail == tail;
    } else {
      var b, more := blocks[0], blocks[1..];
      HeadAndRest(blocks);
      BlocksCons(b, more);
      hide *;
      WalkOverBlocks(more, tail, frames + if b.Image? then 1 else 0);
      Regroup(PrintBlock(b), PrintBlocks(more), tail);
      WalkPastBlock(b, PrintBlocks(more) + tail, frames);
    }
  }

  lemma BlocksCons(b: Block, more: seq<Block>)
    ensures PrintBlocks([b] + more) == PrintBlock(b) + PrintBlocks(more)
    ensures Images([b] + more) == Images(more) + if b.Image? then 1 else 0
    ensures FitsBlock(b) && FitsBlocks(more) <==> FitsBlocks([b] + more)
  {
    hide FitsBlock, PrintBlock;
    var all := [b] + more;
    assert all[1..] == more;
    if FitsBlocks(all) {
      assert all[0] == b;
      forall i | 0 <= i < |more|
        ensures FitsBlock(more[i])
      {
        assert all[i + 1] == more[i];
      }
    }
  }

  /** The block a walk that goes on has just passed. */
  lemma NextBlock(s: seq<byte>, frames: nat) returns (b: Block, rest: seq<byte>)
    requires Walk(s, frames) && !(s[0] == IMAGE_SEPARATOR && frames >= 1)
    ensures FitsBlock(b) && s == PrintBlock(b) + rest && |rest| < |s|
    ensures if b.Image? then frames == 0 && Walk(rest, 1) else Walk(rest, frames)
  {
    assert [s[0]] + s[1..] == s;
    BlocksShrink(s[1..]);
    if s[0] == EXTENSION {
      ExtensionExact(s[1..]);
      b, rest := ParseExtension(s[1..]).value, ParseExtension(s[1..]).rest;
    } else {
      ImageExact(s[1..]);
      b, rest := ParseImage(s[1..]).value, ParseImage(s[1..]).rest;
    }
    hide ParseImage, ParseExtension, PrintBlock, FitsBlock;
  }

  /** When the walk comes to a second image, it has passed whole blocks with the first among them. */
  lemma {:induction false} WalkFindsBlocks(s: seq<byte>, frames: nat) returns (blocks: seq<Block>)
    requires frames <= 1 && Walk(s, frames)
    ensures FitsBlocks(blocks) && frames + Images(blocks) == 1 && PrintBlocks(blocks) + [IMAGE_SEPARATOR] <= s
    decreases |s|
  {
    if s[0] == IMAGE_SEPARATOR && frames == 1 {
      blocks := [];
    } else {
      var b, rest := NextBlock(s, frames);
      var more := WalkFindsBlocks(rest, frames + if b.Image? then 1 else 0);
      blocks := [b] + more;
      BlocksCons(b, more);
      hide *;
      Regroup(PrintBlock(b), PrintBlocks(more), [IMAGE_SEPARATOR]);
      PrefixBehind(PrintBlock(b), PrintBlocks(more) + [IMAGE_SEPARATOR], rest);
    }
  }

  lemma PrefixBehind(a: seq<byte>, b: seq<byte>, rest: seq<byte>)
    requires b <= rest
    ensures a + b <= a + rest
  {}

  /** The bytes begin with a header, blocks that have one image among them, and the start of another. */
  ghost predicate ReachesSecondImage(data: seq<byte>) {
    exists h, blocks ::
      && FitsHeader(h) && FitsBlocks(blocks) && Images(blocks) == 1
      && PrintHeader(h) + (PrintBlocks(blocks) + [IMAGE_SEPARATOR]) <= data
  }

  lemma AnimatedAfterHeader(h: Header, rest: seq<byte>)
    requires FitsHeader(h)
    ensures Animated(PrintHeader(h) + rest) == Walk(rest, 0)
  {
    HeaderUndone(h, rest);
    hide PrintHeader, ParseHeader, FitsHeader, Walk;
  }

  lemma WalkAtEdge(tail: seq<byte>, frames: nat)
    ensures !Walk([TRAILER] + tail, frames)
    ensures frames >= 1 ==> Walk([IMAGE_SEPARATOR] + tail, frames)
  {}

  lemma SecondImageIsSeen(h: Header, blocks: seq<Block>, tail: seq<byte>)
    requires FitsHeader(h) && FitsBlocks(blocks) && Images(blocks) == 1
    ensures Animated(PrintHeader(h) + (PrintBlocks(blocks) + ([IMAGE_SEPARATOR] + tail)))
  {
    hide *;
    AnimatedAfterHeader(h, PrintBlocks(blocks) + ([IMAGE_SEPARATOR] + tail));
    WalkOverBlocks(blocks, [IMAGE_SEPARATOR] + tail, 0);
    WalkAtEdge(tail, 1);
  }

  /** The verdict on arbitrary bytes: true exactly when they reach a second image. */
  lemma AnimatedIff(data: seq<byte>)
    ensures Animated(data) <==> ReachesSecondImage(data)
  {
    hide *;
    if Animated(data) { AnimatedReaches(data); }
    if ReachesSecondImage(data) { ReachingIsAnimated(data); }
  }

  lemma AnimatedReaches(data: seq<byte>)
    requires Animated(data)
    ensures ReachesSecondImage(data)
  {
    var h := ParseHeader(data);
    HeaderExact(data);
    var blocks := WalkFindsBlocks(h.rest, 0);
    hide PrintHeader, PrintBlocks, FitsHeader, FitsBlocks, Images, ParseHeader, Walk;
    PrefixBehind(PrintHeader(h.value), PrintBlocks(blocks) + [IMAGE_SEPARATOR], h.rest);
  }

  lemma ReachingIsAnimated(data: seq<byte>)
    requires ReachesSecondImage(data)
    ensures Animated(data)
  {
    var h, blocks :|
      && FitsHeader(h) && FitsBlocks(blocks) && Images(blocks) == 1
      && PrintHeader(h) + (PrintBlocks(blocks) + [IMAGE_SEPARATOR]) <= data;
    hide *;
    var body := PrintBlocks(blocks) + [IMAGE_SEPARATOR];
    var tail := data[|PrintHeader(h) + body|..];
    SecondImageIsSeen(h, blocks, tail);
    Regroup(PrintBlocks(blocks), [IMAGE_SEPARATOR], tail);
    Regroup(PrintHeader(h), body, tail);
    assert data == PrintHeader(h) + body + tail;
  }

  /** A whole GIF, with whatever follows its trailer, is animated exactly when it has two images or more. */
  lemma PrintedGif(h: Header, blocks: seq<Block>, tail: seq<byte>)
    requires FitsHeader(h) && FitsBlocks(blocks)
    ensures Animated(PrintHeader(h) + (PrintBlocks(blocks) + ([TRAILER] + tail))) <==> Images(blocks) >= 2
  {
    hide *;
    AnimatedAfterHeader(h, PrintBlocks(blocks) + ([TRAILER] + tail));
    WalkOverBlocks(blocks, [TRAILER] + tail, 0);
    WalkAtEdge(tail, Images(blocks));
  }

  /** By way of example, byte for byte: a screen of one pixel with a full palette, a delay, and two images of which
      the first has a palette of its own. Up to the second image nothing is animated. */
  lemma TwoFramesWithFullPalette(palette: seq<byte>, own: seq<byte>, tail: seq<byte>)
    requires |palette| == 768 && |own| == 12
    ensures var first: seq<byte> :=
              [0x47, 0x49, 0x46, 0x38, 0x39, 0x61, 1, 0, 1, 0, 0xF7, 0, 0] + palette +
              [0x21, 0xF9, 4, 0, 10, 0, 0, 0] +
              [0x2C, 0, 0, 0, 0, 1, 0, 1, 0, 0x81] + own + [2, 2, 0x44, 1, 0];
            Animated(first + ([0x2C] + tail)) && !Animated(first + ([0x3B] + tail))
  {
    var h := Header([0x38, 0x39, 0x61], [1, 0, 1, 0], 0xF7, [0, 0], palette);
    var delay := Extension(0xF9, [[0, 10, 0, 0]]);
    var image := Image([0, 0, 0, 0, 1, 0, 1, 0], 0x81, own, 2, [[0x44, 1]]);
    assert FitsHeader(h) && FitsBlocks([delay, image]);
    assert Images([delay, image]) == 1 by {
      assert [delay, image][1..] == [image] && [image][1..] == [];
      assert Images([image]) == 1;
    }
    assert IMAGE_SEPARATOR == 0x2C && TRAILER == 0x3B;
    hide *;
    ExampleHeader(h, palette);
    ExampleDelay(delay);
    ExampleImage(image, own);
    PrintTwo(delay, image);
    SecondImageIsSeen(h, [delay, image], tail);
    PrintedGif(h, [delay, image], tail);
    JoinFive(PrintHeader(h), PrintBlock(delay), PrintBlock(image), [0x2C] + tail);
    JoinFive(PrintHeader(h), PrintBlock(delay), PrintBlock(image), [0x3B] + tail);
    var lead: seq<byte>, frame: seq<byte>, end: seq<byte> :=
      [0x47, 0x49, 0x46, 0x38, 0x39, 0x61, 1, 0, 1, 0, 0xF7, 0, 0],
      [0x2C, 0, 0, 0, 0, 1, 0, 1, 0, 0x81],
      [2, 2, 0x44, 1, 0];
    JoinImage(lead + palette + PrintBlock(delay), frame, own, end);
  }

  lemma JoinFive(a: seq<byte>, b: seq<byte>, c: seq<byte>, d: seq<byte>)
    ensures (a + b + c) + d == a + ((b + c) + d)
  {}

  lemma JoinImage(a: seq<byte>, b: seq<byte>, c: seq<byte>, d: seq<byte>)
    ensures a + (b + c + d) == a + b + c + d
  {}

  lemma ExampleHeader(h: Header, palette: seq<byte>)
    requires h == Header([0x38, 0x39, 0x61], [1, 0, 1, 0], 0xF7, [0, 0], palette)
    ensures PrintHeader(h) == [0x47, 0x49, 0x46, 0x38, 0x39, 0x61, 1, 0, 1, 0, 0xF7, 0, 0] + palette
  {}

  lemma ExampleDelay(delay: Block)
    requires delay == Extension(0xF9, [[0, 10, 0, 0]])
    ensures PrintBlock(delay) == [0x21, 0xF9, 4, 0, 10, 0, 0, 0]
  {
    assert delay.subs[1..] == [];
  }

  lemma ExampleImage(image: Block, own: seq<byte>)
    requires image == Image([0, 0, 0, 0, 1, 0, 1, 0], 0x81, own, 2, [[0x44, 1]])
    ensures PrintBlock(image) == [0x2C, 0, 0, 0, 0, 1, 0, 1, 0, 0x81] + own + [2, 2, 0x44, 1, 0]
  {
    assert image.subs[1..] == [];
    assert PrintSubs(image.subs) == [2, 0x44, 1, 0];
  }

  lemma PrintTwo(a: Block, b: Block)
    ensures PrintBlocks([a, b]) == PrintBlock(a) + PrintBlock(b)
  {
    hide PrintBlock;
    assert [a, b][1..] == [b] && [b][1..] == [];
    assert PrintBlocks([b]) == PrintBlock(b);
  }

  // ---- The walker -----------------------------------------------------------------------------------

  /** Bounds-checked; once a read runs past the end it stays failed. */
  class Cursor {
    const data: seq<byte>
    var pos: nat
    var ok: bool

    ghost predicate Valid() reads this { pos <= |data| }

    ghost function Left(): Option<seq<byte>>
      requires Valid()
      reads this
    {
      if ok then Some(data[pos..]) else None
    }

    constructor (data: seq<byte>)
      ensures Valid() && Left() == Some(data)
    {
      this.data, pos, ok := data, 0, true;
    }

    method U8() returns (b: byte)
      requires Valid()
      modifies this
      ensures Valid() && Left() == (if old(Left()).Some? then ParseByte(old(Left()).value).Left() else None)
      ensures ok ==> ParseByte(old(Left()).value).value == b
    {
      if !ok || pos >= |data| {
        ok := false;
        return 0;
      }
      b := data[pos];
      pos := pos + 1;
    }

    method Skip(n: nat)
      requires Valid()
      modifies this
      ensures Valid() && Left() == (if old(Left()).Some? then ParseBytes(old(Left()).value, n).Left() else None)
    {
      if !ok || n > |data| - pos {
        ok := false;
        return;
      }
      pos := pos + n;
    }
  }

  method SkipSubBlocks(c: Cursor)
    requires c.Valid()
    modifies c
    ensures c.Valid()
    ensures c.Left() == if old(c.Left()).Some? then ParseSubs(old(c.Left()).value).Left() else None
  {
    while c.ok
      invariant c.Valid() && (old(c.Left()).None? ==> c.Left().None?)
      invariant old(c.Left()).Some? ==> SubsLeft(c.Left()) == ParseSubs(old(c.Left()).value).Left()
      decreases if c.ok then 1 + |c.data| - c.pos else 0
    {
      var len := c.U8();
      if !c.ok || len == 0 { return; }
      c.Skip(len);
    }
  }

  /** What a chain of sub-blocks starting here leaves, if anything. */
  function SubsLeft(left: Option<seq<byte>>): Option<seq<byte>> {
    if left.Some? then ParseSubs(left.value).Left() else None
  }

  method SkipColourTable(c: Cursor, packed: byte)
    requires c.Valid()
    modifies c
    ensures c.Valid()
    ensures c.Left() == if old(c.Left()).Some? then ParseBytes(old(c.Left()).value, TableSize(packed)).Left() else None
    ensures packed < 128 ==> c.ok == old(c.ok) && c.pos == old(c.pos)
    ensures packed >= 128 ==>
              var n := [6, 12, 24, 48, 96, 192, 384, 768][packed % 8];
              c.ok == (old(c.ok) && old(c.pos) + n <= |c.data|) && (c.ok ==> c.pos == old(c.pos) + n)
  {
    if packed < 0x80 { return; }
    var sizeExp := packed % 8;
    TwoToThe(sizeExp + 1);
    var entries := Pow2(sizeExp + 1);
    c.Skip(entries * 3);
  }

  /** Shifting 1 left by `n`. */
  function Pow2(n: nat): nat { if n == 0 then 1 else 2 * Pow2(n - 1) }

  lemma TwoToThe(n: nat)
    requires 0 < n <= 8
    ensures Pow2(n) * 3 == [6, 12, 24, 48, 96, 192, 384, 768][n - 1]
  {
    assert Pow2(1) == 2 && Pow2(2) == 4 && Pow2(3) == 8 && Pow2(4) == 16;
    assert Pow2(5) == 32 && Pow2(6) == 64 && Pow2(7) == 128 && Pow2(8) == 256;
  }

  lemma OneByteSkipped(s: seq<byte>)
    ensures ParseBytes(s, 1).Left() == ParseByte(s).Left()
  {}

  method SkipImage(c: Cursor) returns (ended: bool)
    requires c.Valid() && c.Left().Some?
    modifies c
    ensures c.Valid() && (ended ==> !c.ok)
    ensures c.Left() == ParseImage(old(c.Left()).value).Left()
  {
    hide ParseSubs, TableSize, ParseBytes, ParseByte;
    c.Skip(8);
    var packed := c.U8();
    if !c.ok { return true; }
    SkipColourTable(c, packed);
    if c.ok { OneByteSkipped(c.data[c.pos..]); }
    c.Skip(1);
    SkipSubBlocks(c);
    ended := false;
  }

  method SkipExtension(c: Cursor)
    requires c.Valid() && c.Left().Some?
    modifies c
    ensures c.Valid() && c.Left() == ParseExtension(old(c.Left()).value).Left()
  {
    hide ParseSubs, ParseByte, ParseBytes;
    OneByteSkipped(c.data[c.pos..]);
    c.Skip(1);
    SkipSubBlocks(c);
  }

  method ReadSignature(c: Cursor) returns (good: bool)
    requires c.Valid() && c.Left().Some?
    modifies c
    ensures c.Valid()
    ensures var p := ParseBytes(old(c.Left()).value, 3);
            good == (p.Got? && p.value == ['G' as byte, 'I' as byte, 'F' as byte]) && (good ==> c.Left() == Some(p.rest))
  {
    var g := c.U8();
    var i := c.U8();
    var f := c.U8();
    good := c.ok && g == 'G' as byte && i == 'I' as byte && f == 'F' as byte;
  }

  method SkipHeader(c: Cursor) returns (good: bool)
    requires c.Valid() && c.Left().Some?
    modifies c
    ensures c.Valid() && good == ParseHeader(old(c.Left()).value).Got?
    ensures good ==> c.Left() == ParseHeader(old(c.Left()).value).Left()
  {
    hide TableSize, ParseByte, ParseBytes;
    good := ReadSignature(c);
    if !good { return; }
    c.Skip(3);
    if !c.ok { return false; }
    c.Skip(4);
    var packed := c.U8();
    c.Skip(2);
    if !c.ok { return false; }
    SkipColourTable(c, packed);
    good := c.ok;
  }

  method GifIsAnimated(data: seq<byte>) returns (animated: bool)
    ensures animated == Animated(data)
    ensures animated <==> ReachesSecondImage(data)
  {
    AnimatedIff(data);
    hide ParseHeader, ReachesSecondImage, ParseExtension, ParseImage;
    var c := new Cursor(data);
    var good := SkipHeader(c);
    if !good { return false; }
    var frames := 0;
    while c.ok
      invariant c.Valid() && frames <= 1
      invariant Animated(data) == (c.ok && Walk(c.Left().value, frames))
      decreases if c.ok then 1 + |c.data| - c.pos else 0
    {
      BlocksShrink(c.data[c.pos..][Min(1, |c.data| - c.pos)..]);
      var block := c.U8();
      if !c.ok || block == TRAILER { break; }
      if block == EXTENSION {
        SkipExtension(c);
      } else if block == IMAGE_SEPARATOR {
        frames := frames + 1;
        if frames >= 2 { return true; }
        var ended := SkipImage(c);
        if ended { return false; }
      } else {
        return false;
      }
    }
    animated := false;
  }
}
