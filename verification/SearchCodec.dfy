/** The saved-search query, its printer and its parser. Strings are byte strings. */
module SearchCodec {
  import opened Common
  import opened ByteIo

  const MAX_LIST: nat := 4096
  const MAX_STRLEN: nat := 0xFFFF
  const QUERY_VERSION: byte := 1

  type int32 = i: int | -0x8000_0000 <= i < 0x8000_0000

  datatype Combinator = And | Or
  datatype SearchScope = Images | Galleries | Both
  datatype WeightedTag = WeightedTag(tag: seq<byte>, weight: int32)
  datatype TagGroup = TagGroup(name: seq<byte>, combinator: Combinator, tags: seq<seq<byte>>)
  datatype Query = Query(included: seq<WeightedTag>, exclude: seq<seq<byte>>, groups: seq<TagGroup>,
                         join: Combinator, name: seq<byte>, scope: SearchScope)

  // ---- Printing, on values ------------------------------------------------------------------

  function Cut<T>(s: seq<T>, limit: nat): seq<T> { if |s| > limit then s[..limit] else s }

  function PrintString(s: seq<byte>): seq<byte> { Bytes(|s|, 2) + s }

  function PrintItems<T>(show: T -> seq<byte>, xs: seq<T>): seq<byte> {
    if xs == [] then [] else PrintItems(show, xs[..|xs| - 1]) + show(xs[|xs| - 1])
  }

  function PrintList<T>(show: T -> seq<byte>, xs: seq<T>): seq<byte> {
    Bytes(|xs|, 2) + PrintItems(show, xs)
  }

  /** A weight as an unsigned 32-bit number. */
  function Unsigned(w: int32): nat { if w < 0 then w + 0x1_0000_0000 else w }

  function Signed(u: nat): int32
    requires u < 0x1_0000_0000
  {
    if u >= 0x8000_0000 then u - 0x1_0000_0000 else u
  }

  function PrintWeighted(w: WeightedTag): seq<byte> { PrintString(w.tag) + Bytes(Unsigned(w.weight), 4) }

  /** A query as it stands in a blob: combinator and scope bytes may be any. */
  datatype RawGroup = RawGroup(name: seq<byte>, combinator: byte, tags: seq<seq<byte>>)
  datatype RawQuery = RawQuery(included: seq<WeightedTag>, exclude: seq<seq<byte>>, groups: seq<RawGroup>,
                               join: byte, name: seq<byte>, scope: byte)

  function PrintGroup(g: RawGroup): seq<byte> {
    PrintString(g.name) + [g.combinator] + PrintList(PrintString, g.tags)
  }

  function Print(q: RawQuery): seq<byte> {
    [QUERY_VERSION] + (PrintList(PrintWeighted, q.included) + (PrintList(PrintString, q.exclude) +
      (PrintList(PrintGroup, q.groups) + ([q.join] + (PrintString(q.name) + [q.scope])))))
  }

  function CombinatorByte(c: Combinator): byte { if c.Or? then 1 else 0 }

  function CombinatorOf(b: byte): Combinator { if b == 1 then Or else And }

  function ScopeByte(s: SearchScope): byte { match s case Images => 0 case Galleries => 1 case Both => 2 }

  function ScopeOf(b: byte): SearchScope { if b == 0 then Images else if b == 1 then Galleries else Both }

  function RawOfGroup(g: TagGroup): RawGroup { RawGroup(g.name, CombinatorByte(g.combinator), g.tags) }

  function GroupOf(g: RawGroup): TagGroup { TagGroup(g.name, CombinatorOf(g.combinator), g.tags) }

  function Mapped<S, T>(f: S -> T, xs: seq<S>): (ys: seq<T>)
    ensures |ys| == |xs| && forall i :: 0 <= i < |xs| ==> ys[i] == f(xs[i])
  {
    seq(|xs|, i requires 0 <= i < |xs| => f(xs[i]))
  }

  function RawOf(q: Query): RawQuery {
    RawQuery(q.included, q.exclude, Mapped(RawOfGroup, q.groups), CombinatorByte(q.join), q.name, ScopeByte(q.scope))
  }

  function QueryOf(q: RawQuery): Query {
    Query(q.included, q.exclude, Mapped(GroupOf, q.groups), CombinatorOf(q.join), q.name, ScopeOf(q.scope))
  }

  /** The query with every list cut at 4096 entries and every string at 65535 bytes. */
  function CutString(s: seq<byte>): seq<byte> { Cut(s, MAX_STRLEN) }

  function CutWeighted(w: WeightedTag): WeightedTag { w.(tag := CutString(w.tag)) }

  function CutGroup(g: TagGroup): TagGroup {
    g.(name := CutString(g.name), tags := Mapped(CutString, Cut(g.tags, MAX_LIST)))
  }

  function CutQuery(q: Query): Query {
    q.(included := Mapped(CutWeighted, Cut(q.included, MAX_LIST)), exclude := Mapped(CutString, Cut(q.exclude, MAX_LIST)),
       groups := Mapped(CutGroup, Cut(q.groups, MAX_LIST)), name := CutString(q.name))
  }

  function Encode(q: Query): seq<byte> { Print(RawOf(CutQuery(q))) }

  // ---- Parsing, on values -------------------------------------------------------------------

  function ParseString(s: seq<byte>): Parsed<seq<byte>> {
    match ParseInt(s, 2)
    case Fail => Fail
    case Got(n, rest) => ParseBytes(rest, n)
  }

  function ParseItems<T>(parse: seq<byte> -> Parsed<T>, s: seq<byte>, n: nat): Parsed<seq<T>> {
    if n == 0 then Got([], s)
    else match ParseItems(parse, s, n - 1)
      case Fail => Fail
      case Got(xs, rest) =>
        match parse(rest)
        case Fail => Fail
        case Got(x, rest2) => Got(xs + [x], rest2)
  }

  function ParseList<T>(parse: seq<byte> -> Parsed<T>, s: seq<byte>): Parsed<seq<T>> {
    match ParseInt(s, 2)
    case Fail => Fail
    case Got(n, rest) => if n > MAX_LIST then Fail else ParseItems(parse, rest, n)
  }

  function ParseWeighted(s: seq<byte>): Parsed<WeightedTag> {
    match ParseString(s)
    case Fail => Fail
    case Got(tag, rest) =>
      match ParseInt(rest, 4)
      case Fail => Fail
      case Got(u, rest2) => Got(WeightedTag(tag, Signed32(u)), rest2)
  }

  function Signed32(u: nat): int32 { Signed(u % 0x1_0000_0000) }

  function ParseGroup(s: seq<byte>): Parsed<RawGroup> {
    match ParseString(s)
    case Fail => Fail
    case Got(name, rest) =>
      match ParseByte(rest)
      case Fail => Fail
      case Got(b, rest2) =>
        match ParseList(ParseString, rest2)
        case Fail => Fail
        case Got(tags, rest3) => Got(RawGroup(name, b, tags), rest3)
  }

  function ParseLists(s: seq<byte>): Parsed<(seq<WeightedTag>, seq<seq<byte>>, seq<RawGroup>)> {
    match ParseList(ParseWeighted, s)
    case Fail => Fail
    case Got(included, rest) =>
      match ParseList(ParseString, rest)
      case Fail => Fail
      case Got(exclude, rest2) =>
        match ParseList(ParseGroup, rest2)
        case Fail => Fail
        case Got(groups, rest3) => Got((included, exclude, groups), rest3)
  }

  function ParseEnd(s: seq<byte>): Parsed<(byte, seq<byte>, byte)> {
    match ParseByte(s)
    case Fail => Fail
    case Got(join, rest) =>
      match ParseString(rest)
      case Fail => Fail
      case Got(name, rest2) =>
        match ParseByte(rest2)
        case Fail => Fail
        case Got(scope, rest3) => Got((join, name, scope), rest3)
  }

  /** The raw query a whole blob holds, if it is one. */
  function Parse(s: seq<byte>): Option<RawQuery> {
    match ParseByte(s)
    case Fail => None
    case Got(version, rest) =>
      if version != QUERY_VERSION then None
      else match ParseLists(rest)
        case Fail => None
        case Got(lists, rest2) =>
          match ParseEnd(rest2)
          case Fail => None
          case Got(end, rest3) =>
            if rest3 != [] then None
            else Some(RawQuery(lists.0, lists.1, lists.2, end.0, end.1, end.2))
  }

  function Decode(s: seq<byte>): Option<Query> {
    match Parse(s) case None => None case Some(q) => Some(QueryOf(q))
  }

  // ---- Parsing undoes printing ----------------------------------------------------------------

  predicate FitsString(s: seq<byte>) { |s| <= MAX_STRLEN }

  predicate FitsList<T>(fits: T -> bool, xs: seq<T>) {
    |xs| <= MAX_LIST && forall i :: 0 <= i < |xs| ==> fits(xs[i])
  }

  predicate FitsWeighted(w: WeightedTag) { FitsString(w.tag) }

  predicate FitsGroup(g: RawGroup) { FitsString(g.name) && FitsList(FitsString, g.tags) }

  predicate Fits(q: RawQuery) {
    && FitsList(FitsWeighted, q.included) && FitsList(FitsString, q.exclude) && FitsList(FitsGroup, q.groups)
    && FitsString(q.name)
  }

  /** Parsing what was printed gives it back and leaves what follows it. */
  ghost predicate Undoes<T(!new)>(parse: seq<byte> -> Parsed<T>, show: T -> seq<byte>, fits: T -> bool) {
    forall x: T, tail: seq<byte> :: fits(x) ==> parse(show(x) + tail) == Got(x, tail)
  }

  /** What parses was printed from the value it parses to. */
  ghost predicate Exact<T(!new)>(parse: seq<byte> -> Parsed<T>, show: T -> seq<byte>, fits: T -> bool) {
    forall s: seq<byte> :: parse(s).Got? ==> fits(parse(s).value) && s == show(parse(s).value) + parse(s).rest
  }

  lemma {:induction false} ItemsUndo<T(!new)>(parse: seq<byte> -> Parsed<T>, show: T -> seq<byte>, fits: T -> bool,
                                                 xs: seq<T>, tail: seq<byte>)
    requires Undoes(parse, show, fits) && forall i :: 0 <= i < |xs| ==> fits(xs[i])
    ensures ParseItems(parse, PrintItems(show, xs) + tail, |xs|) == Got(xs, tail)
    decreases |xs|
  {
    if xs == [] {
      assert PrintItems(show, xs) + tail == tail;
    } else {
      var first, last := xs[..|xs| - 1], xs[|xs| - 1];
      ItemsUndo(parse, show, fits, first, show(last) + tail);
      assert PrintItems(show, xs) + tail == PrintItems(show, first) + (show(last) + tail);
      assert first + [last] == xs;
    }
  }

  lemma {:induction false} ItemsExact<T(!new)>(parse: seq<byte> -> Parsed<T>, show: T -> seq<byte>, fits: T -> bool,
                                                  s: seq<byte>, n: nat)
    requires Exact(parse, show, fits)
    ensures var p := ParseItems(parse, s, n);
            p.Got? ==> |p.value| == n && (forall i :: 0 <= i < n ==> fits(p.value[i]))
                       && s == PrintItems(show, p.value) + p.rest
  {
    if n > 0 && ParseItems(parse, s, n).Got? {
      ItemsExact(parse, show, fits, s, n - 1);
      var before := ParseItems(parse, s, n - 1);
      var last := parse(before.rest);
      var all := ParseItems(parse, s, n).value;
      assert all == before.value + [last.value] && all[..n - 1] == before.value;
      assert PrintItems(show, all) == PrintItems(show, before.value) + show(last.value);
    }
  }

  lemma SmallPowers()
    ensures Pow256(1) == 0x100 && Pow256(2) == 0x1_0000 && Pow256(4) == 0x1_0000_0000
  {
    assert Pow256(3) == 0x100_0000;
  }

  lemma ListUndone<T(!new)>(parse: seq<byte> -> Parsed<T>, show: T -> seq<byte>, fits: T -> bool,
                            xs: seq<T>, tail: seq<byte>)
    requires Undoes(parse, show, fits) && FitsList(fits, xs)
    ensures ParseList(parse, PrintList(show, xs) + tail) == Got(xs, tail)
  {
    SmallPowers();
    ParsesInt(|xs|, 2, PrintItems(show, xs) + tail);
    Regroup(Bytes(|xs|, 2), PrintItems(show, xs), tail);
    ItemsUndo(parse, show, fits, xs, tail);
  }

  lemma ListExact<T(!new)>(parse: seq<byte> -> Parsed<T>, show: T -> seq<byte>, fits: T -> bool, s: seq<byte>)
    requires Exact(parse, show, fits)
    ensures var p := ParseList(parse, s);
            p.Got? ==> FitsList(fits, p.value) && s == PrintList(show, p.value) + p.rest
  {
    IntParsed(s, 2);
    var n := ParseInt(s, 2);
    if ParseList(parse, s).Got? {
      ItemsExact(parse, show, fits, n.rest, n.value);
      var p := ParseList(parse, s);
      hide *;
      Regroup(Bytes(n.value, 2), PrintItems(show, p.value), p.rest);
    }
  }

  lemma StringUndone(x: seq<byte>, tail: seq<byte>)
    requires FitsString(x)
    ensures ParseString(PrintString(x) + tail) == Got(x, tail)
  {
    SmallPowers();
    ParsesInt(|x|, 2, x + tail);
    Regroup(Bytes(|x|, 2), x, tail);
  }

  lemma StringExact(s: seq<byte>)
    ensures var p := ParseString(s);
            p.Got? ==> FitsString(p.value) && s == PrintString(p.value) + p.rest
  {
    SmallPowers();
    IntParsed(s, 2);
  }

  lemma StringCodec()
    ensures Undoes(ParseString, PrintString, FitsString) && Exact(ParseString, PrintString, FitsString)
  {
    hide ParseString, PrintString, FitsString;
    forall x: seq<byte>, tail: seq<byte> | FitsString(x)
      ensures ParseString(PrintString(x) + tail) == Got(x, tail)
    {
      StringUndone(x, tail);
    }
    forall s: seq<byte> | ParseString(s).Got?
      ensures FitsString(ParseString(s).value) && s == PrintString(ParseString(s).value) + ParseString(s).rest
    {
      StringExact(s);
    }
  }

  lemma WeightedUndone(x: WeightedTag, tail: seq<byte>)
    requires FitsWeighted(x)
    ensures ParseWeighted(PrintWeighted(x) + tail) == Got(x, tail)
  {
    SmallPowers();
    var u := Bytes(Unsigned(x.weight), 4);
    StringUndone(x.tag, u + tail);
    ParsesInt(Unsigned(x.weight), 4, tail);
    Regroup(PrintString(x.tag), u, tail);
  }

  lemma WeightedExact(s: seq<byte>)
    ensures var p := ParseWeighted(s);
            p.Got? ==> FitsWeighted(p.value) && s == PrintWeighted(p.value) + p.rest
  {
    var tag := ParseString(s);
    StringExact(s);
    if ParseWeighted(s).Got? {
      var u := ParseInt(tag.rest, 4);
      IntParsed(tag.rest, 4);
      SmallPowers();
      assert Unsigned(Signed32(u.value)) == u.value;
      assert ParseWeighted(s) == Got(WeightedTag(tag.value, Signed32(u.value)), u.rest);
      hide Bytes, PrintString, ParseString, ParseInt, ParseWeighted, Pow256;
      Regroup(PrintString(tag.value), Bytes(u.value, 4), u.rest);
    }
  }

  lemma WeightedCodec()
    ensures Undoes(ParseWeighted, PrintWeighted, FitsWeighted) && Exact(ParseWeighted, PrintWeighted, FitsWeighted)
  {
    hide ParseWeighted, PrintWeighted, FitsWeighted;
    forall x: WeightedTag, tail: seq<byte> | FitsWeighted(x)
      ensures ParseWeighted(PrintWeighted(x) + tail) == Got(x, tail)
    {
      WeightedUndone(x, tail);
    }
    forall s: seq<byte> | ParseWeighted(s).Got?
      ensures FitsWeighted(ParseWeighted(s).value) && s == PrintWeighted(ParseWeighted(s).value) + ParseWeighted(s).rest
    {
      WeightedExact(s);
    }
  }

  lemma GroupUndone(x: RawGroup, tail: seq<byte>)
    requires FitsGroup(x)
    ensures ParseGroup(PrintGroup(x) + tail) == Got(x, tail)
  {
    StringCodec();
    hide ParseString, PrintString, ParseList, PrintList, FitsString, ParseByte;
    var tags := PrintList(PrintString, x.tags);
    Regroup(PrintString(x.name) + [x.combinator], tags, tail);
    Regroup(PrintString(x.name), [x.combinator], tags + tail);
    StringUndone(x.name, [x.combinator] + (tags + tail));
    ByteUndone(x.combinator, tags + tail);
    ListUndone(ParseString, PrintString, FitsString, x.tags, tail);
  }

  lemma GroupExact(s: seq<byte>)
    ensures var p := ParseGroup(s);
            p.Got? ==> FitsGroup(p.value) && s == PrintGroup(p.value) + p.rest
  {
    if ParseGroup(s).Got? {
      StringCodec();
      hide ParseString, PrintString, ParseList, PrintList, FitsString, ParseByte;
      var name := ParseString(s);
      StringExact(s);
      var b := ParseByte(name.rest);
      ByteExact(name.rest);
      var tags := ParseList(ParseString, b.rest);
      ListExact(ParseString, PrintString, FitsString, b.rest);
      var t := PrintList(PrintString, tags.value);
      Regroup(PrintString(name.value) + [b.value], t, tags.rest);
      Regroup(PrintString(name.value), [b.value], t + tags.rest);
    }
  }

  lemma GroupCodec()
    ensures Undoes(ParseGroup, PrintGroup, FitsGroup) && Exact(ParseGroup, PrintGroup, FitsGroup)
  {
    hide ParseGroup, PrintGroup, FitsGroup;
    forall x: RawGroup, tail: seq<byte> | FitsGroup(x)
      ensures ParseGroup(PrintGroup(x) + tail) == Got(x, tail)
    {
      GroupUndone(x, tail);
    }
    forall s: seq<byte> | ParseGroup(s).Got?
      ensures FitsGroup(ParseGroup(s).value) && s == PrintGroup(ParseGroup(s).value) + ParseGroup(s).rest
    {
      GroupExact(s);
    }
  }

  // ---- Whole queries --------------------------------------------------------------------------

  function PrintLists(q: RawQuery): seq<byte> {
    PrintList(PrintWeighted, q.included) + (PrintList(PrintString, q.exclude) + PrintList(PrintGroup, q.groups))
  }

  function PrintEnd(q: RawQuery): seq<byte> { [q.join] + (PrintString(q.name) + [q.scope]) }

  lemma ListsUndone(q: RawQuery, tail: seq<byte>)
    requires Fits(q)
    ensures ParseLists(PrintLists(q) + tail) == Got((q.included, q.exclude, q.groups), tail)
  {
    WeightedCodec();
    StringCodec();
    GroupCodec();
    hide PrintList, ParseList, PrintString, ParseString, PrintWeighted, ParseWeighted, PrintGroup, ParseGroup, FitsList;
    var a, b, c := PrintList(PrintWeighted, q.included), PrintList(PrintString, q.exclude), PrintList(PrintGroup, q.groups);
    Regroup(a, b + c, tail);
    Regroup(b, c, tail);
    ListUndone(ParseWeighted, PrintWeighted, FitsWeighted, q.included, b + (c + tail));
    ListUndone(ParseString, PrintString, FitsString, q.exclude, c + tail);
    ListUndone(ParseGroup, PrintGroup, FitsGroup, q.groups, tail);
  }

  lemma ListsExact(s: seq<byte>)
    ensures var p := ParseLists(s);
            p.Got? ==>
              && FitsList(FitsWeighted, p.value.0) && FitsList(FitsString, p.value.1) && FitsList(FitsGroup, p.value.2)
              && s == PrintLists(RawQuery(p.value.0, p.value.1, p.value.2, 0, [], 0)) + p.rest
  {
    if ParseLists(s).Got? {
      WeightedCodec();
      StringCodec();
      GroupCodec();
      hide PrintList, ParseList, PrintString, ParseString, PrintWeighted, ParseWeighted, PrintGroup, ParseGroup, FitsList;
      var included := ParseList(ParseWeighted, s);
      ListExact(ParseWeighted, PrintWeighted, FitsWeighted, s);
      var exclude := ParseList(ParseString, included.rest);
      ListExact(ParseString, PrintString, FitsString, included.rest);
      var groups := ParseList(ParseGroup, exclude.rest);
      ListExact(ParseGroup, PrintGroup, FitsGroup, exclude.rest);
      var a, b := PrintList(PrintWeighted, included.value), PrintList(PrintString, exclude.value);
      var c := PrintList(PrintGroup, groups.value);
      Regroup(a, b + c, groups.rest);
      Regroup(b, c, groups.rest);
    }
  }

  lemma EndUndone(q: RawQuery)
    requires FitsString(q.name)
    ensures ParseEnd(PrintEnd(q)) == Got((q.join, q.name, q.scope), [])
  {
    hide PrintString, ParseString, FitsString;
    ByteUndone(q.join, PrintString(q.name) + [q.scope]);
    StringUndone(q.name, [q.scope]);
    assert [q.scope][1..] == [];
  }

  lemma EndExact(s: seq<byte>)
    ensures var p := ParseEnd(s);
            p.Got? ==> FitsString(p.value.1) && s == PrintEnd(RawQuery([], [], [], p.value.0, p.value.1, p.value.2)) + p.rest
  {
    if ParseEnd(s).Got? {
      hide PrintString, ParseString, FitsString, ParseByte;
      var join := ParseByte(s);
      ByteExact(s);
      var name := ParseString(join.rest);
      StringExact(join.rest);
      var scope := ParseByte(name.rest);
      ByteExact(name.rest);
      Regroup([join.value], PrintString(name.value) + [scope.value], scope.rest);
      Regroup(PrintString(name.value), [scope.value], scope.rest);
    }
  }

  lemma PrintParts(q: RawQuery)
    ensures Print(q) == [QUERY_VERSION] + (PrintLists(q) + PrintEnd(q))
  {
    hide PrintList, PrintString;
    var a, b, c := PrintList(PrintWeighted, q.included), PrintList(PrintString, q.exclude), PrintList(PrintGroup, q.groups);
    Regroup(a, b + c, PrintEnd(q));
    Regroup(b, c, PrintEnd(q));
  }

  /** Parsing a printed query gives the query. */
  lemma ParseUndoesPrint(q: RawQuery)
    requires Fits(q)
    ensures Parse(Print(q)) == Some(q)
  {
    ListsUndone(q, PrintEnd(q));
    EndUndone(q);
    PrintParts(q);
    hide PrintLists, ParseLists, PrintEnd, ParseEnd, Print;
    ByteUndone(QUERY_VERSION, PrintLists(q) + PrintEnd(q));
  }

  /** A blob that parses is the one printed from what it parses to; so the blobs accepted are exactly
      the printed queries within the limits. */
  lemma PrintUndoesParse(s: seq<byte>)
    ensures Parse(s).Some? ==> Fits(Parse(s).value) && s == Print(Parse(s).value)
    ensures Parse(s).Some? <==> exists q :: Fits(q) && s == Print(q)
  {
    if Parse(s).Some? {
      ByteExact(s);
      var lists := ParseLists(s[1..]);
      ListsExact(s[1..]);
      EndExact(lists.rest);
      var q := Parse(s).value;
      PrintParts(q);
      PartsSplit(lists.value.0, lists.value.1, lists.value.2, q);
      hide PrintLists, ParseLists, PrintEnd, ParseEnd, Print, FitsList;
      assert PrintEnd(q) + [] == PrintEnd(q);
    }
    forall q | Fits(q) && s == Print(q)
      ensures Parse(s).Some?
    {
      ParseUndoesPrint(q);
    }
  }

  /** The lists and the rest of a query print independently. */
  lemma PartsSplit(included: seq<WeightedTag>, exclude: seq<seq<byte>>, groups: seq<RawGroup>, q: RawQuery)
    ensures q.included == included && q.exclude == exclude && q.groups == groups ==>
              PrintLists(q) == PrintLists(RawQuery(included, exclude, groups, 0, [], 0))
    ensures PrintEnd(q) == PrintEnd(RawQuery([], [], [], q.join, q.name, q.scope))
  {}

  // ---- The round trip -------------------------------------------------------------------------

  predicate GroupWithinLimits(g: TagGroup) { FitsString(g.name) && FitsList(FitsString, g.tags) }

  /** No list over 4096 entries and no string over 65535 bytes. */
  predicate WithinLimits(q: Query) {
    && FitsList(FitsWeighted, q.included) && FitsList(FitsString, q.exclude) && FitsList(GroupWithinLimits, q.groups)
    && FitsString(q.name)
  }

  lemma RawAndBack(q: Query)
    ensures QueryOf(RawOf(q)) == q
  {
    assert QueryOf(RawOf(q)).groups == q.groups;
  }

  lemma CutGroupFits(g: TagGroup)
    ensures FitsGroup(RawOfGroup(CutGroup(g)))
  {}

  lemma CutFits(q: Query)
    ensures Fits(RawOf(CutQuery(q)))
  {
    forall i | 0 <= i < |CutQuery(q).groups|
      ensures FitsGroup(RawOf(CutQuery(q)).groups[i])
    {
      CutGroupFits(q.groups[i]);
    }
    hide FitsGroup, RawOfGroup, CutGroup;
  }

  lemma CutIsIdentity(q: RawQuery)
    requires Fits(q)
    ensures CutQuery(QueryOf(q)) == QueryOf(q)
  {
    var v := QueryOf(q);
    forall i | 0 <= i < |v.groups|
      ensures CutGroup(v.groups[i]) == v.groups[i]
    {
      assert FitsGroup(q.groups[i]);
      assert CutGroup(v.groups[i]).tags == v.groups[i].tags;
    }
    hide CutGroup, GroupOf;
    assert CutQuery(v).groups == v.groups;
    assert CutQuery(v).included == v.included;
    assert CutQuery(v).exclude == v.exclude;
  }

  lemma LimitsOfRaw(q: Query)
    ensures WithinLimits(q) <==> Fits(RawOf(q))
  {
    assert forall i :: 0 <= i < |q.groups| ==> (GroupWithinLimits(q.groups[i]) <==> FitsGroup(RawOf(q).groups[i]));
    hide RawOfGroup, GroupWithinLimits, FitsGroup, FitsString, FitsWeighted;
  }

  /** Saving cuts nothing exactly from a query within the limits. */
  lemma UncutIff(q: Query)
    ensures CutQuery(q) == q <==> WithinLimits(q)
  {
    hide WithinLimits, Fits, CutQuery, RawOf, QueryOf;
    LimitsOfRaw(q);
    RawAndBack(q);
    CutFits(q);
    if WithinLimits(q) { CutIsIdentity(RawOf(q)); }
  }

  /** What was saved is what is loaded, up to the cuts; exactly, for a query within the limits. */
  lemma RoundTrip(q: Query)
    ensures Decode(Encode(q)) == Some(CutQuery(q))
    ensures Decode(Encode(q)) == Some(q) <==> WithinLimits(q)
  {
    hide WithinLimits, Fits, CutQuery, RawOf, QueryOf, Parse, Print;
    CutFits(q);
    ParseUndoesPrint(RawOf(CutQuery(q)));
    RawAndBack(CutQuery(q));
    UncutIff(q);
  }

  // ---- The format, written out ----------------------------------------------------------------

  /** Every list and string is cut from its end: what stays are the first 4096 entries and 65535 bytes. */
  lemma CutKeepsTheStart(q: Query)
    ensures var c := CutQuery(q);
            && |c.included| == Min(|q.included|, 4096) && |c.exclude| == Min(|q.exclude|, 4096)
            && |c.groups| == Min(|q.groups|, 4096)
            && (forall i :: 0 <= i < |c.included| ==>
                  c.included[i].weight == q.included[i].weight && Begins(c.included[i].tag, q.included[i].tag))
            && (forall i :: 0 <= i < |c.exclude| ==> Begins(c.exclude[i], q.exclude[i]))
            && (forall i :: 0 <= i < |c.groups| ==> GroupBegins(c.groups[i], q.groups[i]))
            && Begins(c.name, q.name) && c.join == q.join && c.scope == q.scope
  {
    forall i | 0 <= i < Min(|q.groups|, MAX_LIST) ensures GroupBegins(CutGroup(q.groups[i]), q.groups[i]) {
      CutGroupBegins(q.groups[i]);
    }
    hide GroupBegins, CutGroup;
  }

  predicate Begins(s: seq<byte>, of: seq<byte>) { s <= of && |s| == if |of| < 65535 then |of| else 65535 }

  predicate GroupBegins(g: TagGroup, of: TagGroup) {
    && Begins(g.name, of.name) && g.combinator == of.combinator && |g.tags| == Min(|of.tags|, 4096)
    && forall i :: 0 <= i < |g.tags| ==> Begins(g.tags[i], of.tags[i])
  }

  lemma CutGroupBegins(g: TagGroup)
    ensures GroupBegins(CutGroup(g), g)
  {}

  /** The bytes of a query with one of everything, in the order they are written: the version, then the weighted
      tag, the excluded one, the group, and what joins the groups, the name and the scope; lengths in two bytes and
      the weight in four, least significant first, a negative weight as its two's complement. */
  lemma OneOfEach(q: Query, tag: seq<byte>, weight: int32, without: seq<byte>, group: seq<byte>, inner: seq<byte>,
                  name: seq<byte>)
    requires |tag| < 256 && |without| < 256 && |group| < 256 && |inner| < 256 && |name| < 256
    requires q.included == [WeightedTag(tag, weight)] && q.exclude == [without] && q.name == name
    requires |q.groups| == 1 && q.groups[0].name == group && q.groups[0].tags == [inner]
    ensures var w: nat := if weight < 0 then 4294967296 + weight else weight;
            Encode(q) ==
              [1] +
              (([1, 0] + (([|tag|, 0] + tag) + [w % 256, w / 256 % 256, w / 65536 % 256, w / 16777216])) +
              (([1, 0] + ([|without|, 0] + without)) +
              (([1, 0] + ((([|group|, 0] + group) + [if q.groups[0].combinator.Or? then 1 else 0]) +
                          ([1, 0] + ([|inner|, 0] + inner)))) +
              ([if q.join.Or? then 1 else 0] +
              (([|name|, 0] + name) +
               [if q.scope.Images? then 0 else if q.scope.Galleries? then 1 else 2])))))
  {
    UncutIff(q);
    var raw, g := RawOf(q), RawOfGroup(q.groups[0]);
    assert Encode(q) == Print(raw) by { assert WithinLimits(q); }
    assert raw.groups == [g];
    OneWeighted(tag, weight);
    OneGroup(g, group, inner);
    ListOfOne(PrintString, without);
    ShortStrings(without);
    ShortStrings(name);
    hide PrintList, PrintString, PrintWeighted, PrintGroup, Encode, CutQuery, WithinLimits, Unsigned;
  }

  lemma OneWeighted(tag: seq<byte>, weight: int32)
    requires |tag| < 256
    ensures var w: nat := if weight < 0 then 4294967296 + weight else weight;
            PrintList(PrintWeighted, [WeightedTag(tag, weight)]) ==
              [1, 0] + (([|tag|, 0] + tag) + [w % 256, w / 256 % 256, w / 65536 % 256, w / 16777216])
  {
    ShortStrings(tag);
    ShortIntegers(Unsigned(weight));
    ListOfOne(PrintWeighted, WeightedTag(tag, weight));
    hide PrintList, PrintString, Bytes;
  }

  lemma OneGroup(g: RawGroup, group: seq<byte>, inner: seq<byte>)
    requires |group| < 256 && |inner| < 256 && g.name == group && g.tags == [inner]
    ensures PrintList(PrintGroup, [g]) ==
              [1, 0] + ((([|group|, 0] + group) + [g.combinator]) + ([1, 0] + ([|inner|, 0] + inner)))
  {
    ShortStrings(group);
    ShortStrings(inner);
    ListOfOne(PrintString, inner);
    ListOfOne(PrintGroup, g);
    hide PrintList, PrintString;
  }

  lemma ShortStrings(s: seq<byte>)
    requires |s| < 256
    ensures PrintString(s) == [|s|, 0] + s
  {
    ShortIntegers(|s|);
  }

  lemma ListOfOne<T>(show: T -> seq<byte>, x: T)
    ensures PrintList(show, [x]) == [1, 0] + show(x)
  {
    ShortIntegers(1);
    assert [x][..0] == [];
    assert PrintItems(show, []) + show(x) == show(x);
  }

  // ---- Blobs that are not canonical -----------------------------------------------------------

  function CanonicalGroup(g: RawGroup): RawGroup { g.(combinator := if g.combinator == 1 then 1 else 0) }

  /** The same query with the bytes the printer would have used. */
  function Canonical(q: RawQuery): RawQuery {
    q.(groups := Mapped(CanonicalGroup, q.groups), join := if q.join == 1 then 1 else 0, scope := Min(q.scope, 2))
  }

  predicate CanonicalBytes(q: RawQuery) {
    q.join <= 1 && q.scope <= 2 && forall i :: 0 <= i < |q.groups| ==> q.groups[i].combinator <= 1
  }

  lemma {:induction false} GroupsKeepLength(groups: seq<RawGroup>)
    ensures |PrintItems(PrintGroup, Mapped(CanonicalGroup, groups))| == |PrintItems(PrintGroup, groups)|
    decreases |groups|
  {
    if groups != [] {
      var n := |groups| - 1;
      GroupsKeepLength(groups[..n]);
      assert Mapped(CanonicalGroup, groups)[..n] == Mapped(CanonicalGroup, groups[..n]);
    }
  }

  lemma CanonicalKeepsLength(q: RawQuery)
    ensures |Print(Canonical(q))| == |Print(q)|
  {
    GroupsKeepLength(q.groups);
    hide PrintItems, PrintString, CanonicalGroup;
  }

  lemma RawIsCanonical(q: RawQuery)
    ensures RawOf(QueryOf(q)) == Canonical(q)
  {
    assert RawOf(QueryOf(q)).groups == Canonical(q).groups;
  }

  /** An accepted blob re-encodes to a blob of the same length that decodes to the same query. The two
      differ in combinator and scope bytes only, and are equal exactly when those bytes were canonical. */
  lemma AcceptedReencodes(s: seq<byte>)
    requires Decode(s).Some?
    ensures var q, raw := Decode(s).value, Parse(s).value;
            && s == Print(raw) && Encode(q) == Print(Canonical(raw))
            && |Encode(q)| == |s| && Decode(Encode(q)) == Some(q)
            && (Encode(q) == s <==> CanonicalBytes(raw))
  {
    var q, raw := Decode(s).value, Parse(s).value;
    assert q == QueryOf(raw) && Encode(q) == Print(RawOf(CutQuery(q)));
    hide Print, Parse, Canonical, CanonicalBytes, Fits, CutQuery, RawOf, QueryOf, Decode, Encode;
    PrintUndoesParse(s);
    CutIsIdentity(raw);
    RawIsCanonical(raw);
    CanonicalKeepsLength(raw);
    RoundTrip(q);
    CutFits(q);
    ParseUndoesPrint(Canonical(raw));
    CanonicalIff(raw);
  }

  /** Which bytes mean what in an accepted blob: 1 is Or and any other And; 0 images, 1 galleries and any other both. */
  lemma OtherBytes(s: seq<byte>)
    requires Decode(s).Some?
    ensures var q, raw := Decode(s).value, Parse(s).value;
            && (q.join.Or? <==> raw.join == 1) && |q.groups| == |raw.groups|
            && (forall i :: 0 <= i < |q.groups| ==> (q.groups[i].combinator.Or? <==> raw.groups[i].combinator == 1))
            && (q.scope.Images? <==> raw.scope == 0) && (q.scope.Galleries? <==> raw.scope == 1)
  {
    hide Parse;
  }

  lemma CanonicalIff(q: RawQuery)
    ensures CanonicalBytes(q) <==> Canonical(q) == q
  {
    if CanonicalBytes(q) { assert Canonical(q).groups == q.groups; }
    if Canonical(q) == q {
      forall i | 0 <= i < |q.groups|
        ensures q.groups[i].combinator <= 1
      {
        assert Canonical(q).groups[i] == q.groups[i];
      }
    }
  }

  // ---- The serializer ---------------------------------------------------------------------------

  lemma ItemsSnoc<T>(show: T -> seq<byte>, xs: seq<T>, i: nat)
    requires i < |xs|
    ensures PrintItems(show, xs[..i + 1]) == PrintItems(show, xs[..i]) + show(xs[i])
  {
    assert xs[..i + 1][..i] == xs[..i];
  }

  method WriteString(w: ByteWriter, s: seq<byte>)
    modifies w
    ensures w.written == old(w.written) + PrintString(CutString(s))
  {
    var len := if |s| > MAX_STRLEN then MAX_STRLEN else |s|;
    w.Int(len, 2);
    w.Raw(s[..len]);
  }

  /** Writing item `i` extends what has been written of a list by one. */
  lemma ListGrows<T>(show: T -> seq<byte>, xs: seq<T>, i: nat, start: seq<byte>, now: seq<byte>)
    requires i < |xs| && now == start + PrintItems(show, xs[..i])
    ensures now + show(xs[i]) == start + PrintItems(show, xs[..i + 1])
  {
    ItemsSnoc(show, xs, i);
    hide *;
    Regroup(start, PrintItems(show, xs[..i]), show(xs[i]));
  }

  lemma ListDone<T>(show: T -> seq<byte>, xs: seq<T>, before: seq<byte>)
    ensures before + Bytes(|xs|, 2) + PrintItems(show, xs[..|xs|]) == before + PrintList(show, xs)
    ensures xs[..0] == [] && PrintItems(show, []) == []
  {
    assert xs[..|xs|] == xs;
    Regroup(before, Bytes(|xs|, 2), PrintItems(show, xs));
  }

  method WriteStrings(w: ByteWriter, xs: seq<seq<byte>>)
    modifies w
    ensures w.written == old(w.written) + PrintList(PrintString, Mapped(CutString, Cut(xs, MAX_LIST)))
  {
    ghost var cut := Mapped(CutString, Cut(xs, MAX_LIST));
    var n := Min(|xs|, MAX_LIST);
    assert |cut| == n && forall i :: 0 <= i < n ==> cut[i] == CutString(xs[i]);
    hide *;
    w.Int(n, 2);
    ghost var start := w.written;
    ListDone(PrintString, cut, old(w.written));
    for i := 0 to n
      invariant w.written == start + PrintItems(PrintString, cut[..i])
    {
      ListGrows(PrintString, cut, i, start, w.written);
      WriteString(w, xs[i]);
    }
  }

  method WriteInclude(w: ByteWriter, x: WeightedTag)
    modifies w
    ensures w.written == old(w.written) + PrintWeighted(CutWeighted(x))
  {
    hide PrintString, CutString;
    WriteString(w, x.tag);
    w.Int(Unsigned(x.weight), 4);
  }

  lemma CutIncludesAre(xs: seq<WeightedTag>)
    ensures var cut := Mapped(CutWeighted, Cut(xs, MAX_LIST));
            && |cut| == (if |xs| < MAX_LIST then |xs| else MAX_LIST)
            && forall i :: 0 <= i < |cut| ==> cut[i] == CutWeighted(xs[i])
  {
    hide CutWeighted;
  }

  method WriteIncludes(w: ByteWriter, xs: seq<WeightedTag>)
    modifies w
    ensures w.written == old(w.written) + PrintList(PrintWeighted, Mapped(CutWeighted, Cut(xs, MAX_LIST)))
  {
    hide *;
    ghost var cut := Mapped(CutWeighted, Cut(xs, MAX_LIST));
    var n := if |xs| < MAX_LIST then |xs| else MAX_LIST;
    CutIncludesAre(xs);
    w.Int(n, 2);
    ghost var start := w.written;
    ListDone(PrintWeighted, cut, old(w.written));
    for i := 0 to n
      invariant w.written == start + PrintItems(PrintWeighted, cut[..i])
    {
      ListGrows(PrintWeighted, cut, i, start, w.written);
      WriteInclude(w, xs[i]);
    }
  }

  method WriteGroup(w: ByteWriter, g: TagGroup)
    modifies w
    ensures w.written == old(w.written) + PrintGroup(RawOfGroup(CutGroup(g)))
  {
    hide PrintString, CutString, PrintList;
    WriteString(w, g.name);
    w.Raw([CombinatorByte(g.combinator)]);
    WriteStrings(w, g.tags);
  }

  lemma CutGroupsAre(xs: seq<TagGroup>)
    ensures var cut := Mapped(RawOfGroup, Mapped(CutGroup, Cut(xs, MAX_LIST)));
            |cut| == Min(|xs|, MAX_LIST) && forall i :: 0 <= i < |cut| ==> cut[i] == RawOfGroup(CutGroup(xs[i]))
  {
    hide RawOfGroup, CutGroup;
  }

  method WriteGroups(w: ByteWriter, xs: seq<TagGroup>)
    modifies w
    ensures w.written == old(w.written) +
              PrintList(PrintGroup, Mapped(RawOfGroup, Mapped(CutGroup, Cut(xs, MAX_LIST))))
  {
    ghost var cut := Mapped(RawOfGroup, Mapped(CutGroup, Cut(xs, MAX_LIST)));
    var n := Min(|xs|, MAX_LIST);
    CutGroupsAre(xs);
    hide *;
    w.Int(n, 2);
    ghost var start := w.written;
    ListDone(PrintGroup, cut, old(w.written));
    for i := 0 to n
      invariant w.written == start + PrintItems(PrintGroup, cut[..i])
    {
      ListGrows(PrintGroup, cut, i, start, w.written);
      WriteGroup(w, xs[i]);
    }
  }

  method SerializeQuery(q: Query) returns (out: seq<byte>)
    ensures out == Encode(q)
  {
    hide PrintList, PrintString, CutString, CutGroup, CutWeighted;
    var w := new ByteWriter();
    w.Raw([QUERY_VERSION]);
    WriteIncludes(w, q.included);
    WriteStrings(w, q.exclude);
    WriteGroups(w, q.groups);
    ghost var lists := w.written;
    w.Raw([CombinatorByte(q.join)]);
    WriteString(w, q.name);
    w.Raw([ScopeByte(q.scope)]);
    out := w.written;
    ghost var raw := RawOf(CutQuery(q));
    PrintParts(raw);
    assert lists == [QUERY_VERSION] + PrintLists(raw);
    assert out == lists + PrintEnd(raw);
  }

  // ---- The deserializer -------------------------------------------------------------------------

  lemma {:induction false} ItemsFail<T>(parse: seq<byte> -> Parsed<T>, s: seq<byte>, m: nat, n: nat)
    requires m <= n && ParseItems(parse, s, m).Fail?
    ensures ParseItems(parse, s, n).Fail?
  {
    if m < n { ItemsFail(parse, s, m, n - 1); }
  }

  method ReadString(r: ByteReader) returns (good: bool, out: seq<byte>)
    requires r.Valid() && r.Left().Some?
    modifies r
    ensures r.Valid() && good == ParseString(old(r.Left()).value).Got?
    ensures good ==> Got(out, r.input[r.pos..]) == ParseString(old(r.Left()).value) && r.ok
  {
    out := [];
    var len := r.Int(2);
    if !r.ok { return false, []; }
    if len > 0 {
      out := r.Raw(len);
      if !r.ok { return false, []; }
    }
    good := true;
  }

  method ReadStringList(r: ByteReader) returns (good: bool, out: seq<seq<byte>>)
    requires r.Valid() && r.Left().Some?
    modifies r
    ensures r.Valid() && good == ParseList(ParseString, old(r.Left()).value).Got?
    ensures good ==> Got(out, r.input[r.pos..]) == ParseList(ParseString, old(r.Left()).value) && r.ok
  {
    hide ParseString;
    out := [];
    var n := r.Int(2);
    if !r.ok || n > MAX_LIST { return false, []; }
    ghost var start := r.Left().value;
    for i := 0 to n
      invariant r.Valid() && r.ok
      invariant ParseItems(ParseString, start, i) == Got(out, r.input[r.pos..])
    {
      var one, s := ReadString(r);
      if !one {
        ItemsFail(ParseString, start, i + 1, n);
        return false, [];
      }
      out := out + [s];
    }
    good := true;
  }

  method ReadCombinator(r: ByteReader) returns (c: Combinator, ghost b: byte)
    requires r.Valid() && r.Left().Some?
    modifies r
    ensures r.Valid() && r.Left() == ParseByte(old(r.Left()).value).Left()
    ensures r.ok ==> c == CombinatorOf(b) && Got(b, r.input[r.pos..]) == ParseByte(old(r.Left()).value)
    ensures c.Or? <==> b == 1
  {
    var v := ReadByte(r);
    b := v;
    c := if v == 1 then Or else And;
  }

  method ReadByte(r: ByteReader) returns (b: byte)
    requires r.Valid() && r.Left().Some?
    modifies r
    ensures r.Valid() && r.Left() == ParseByte(old(r.Left()).value).Left()
    ensures r.ok ==> Got(b, r.input[r.pos..]) == ParseByte(old(r.Left()).value)
    ensures !r.ok ==> b == 0
  {
    var s := r.Raw(1);
    b := if r.ok then s[0] else 0;
  }

  method ReadWeighted(r: ByteReader) returns (good: bool, w: WeightedTag)
    requires r.Valid() && r.Left().Some?
    modifies r
    ensures r.Valid() && good == ParseWeighted(old(r.Left()).value).Got?
    ensures good ==> Got(w, r.input[r.pos..]) == ParseWeighted(old(r.Left()).value) && r.ok
  {
    hide ParseString, Signed, LittleEndian, Pow256;
    w := WeightedTag([], 0);
    var one, tag := ReadString(r);
    if !one { return false, w; }
    var u := r.Int(4);
    if !r.ok { return false, w; }
    good, w := true, WeightedTag(tag, Signed32(u));
  }

  method ReadWeightedList(r: ByteReader) returns (good: bool, out: seq<WeightedTag>)
    requires r.Valid() && r.Left().Some?
    modifies r
    ensures r.Valid() && good == ParseList(ParseWeighted, old(r.Left()).value).Got?
    ensures good ==> Got(out, r.input[r.pos..]) == ParseList(ParseWeighted, old(r.Left()).value) && r.ok
  {
    hide ParseWeighted, LittleEndian, Pow256;
    out := [];
    var n := r.Int(2);
    if !r.ok || n > MAX_LIST { return false, []; }
    ghost var start := r.Left().value;
    for i := 0 to n
      invariant r.Valid() && r.ok
      invariant ParseItems(ParseWeighted, start, i) == Got(out, r.input[r.pos..])
    {
      var one, w := ReadWeighted(r);
      if !one {
        ItemsFail(ParseWeighted, start, i + 1, n);
        return false, [];
      }
      out := out + [w];
    }
    good := true;
  }

  method ReadGroups(r: ByteReader) returns (good: bool, out: seq<TagGroup>, ghost raw: seq<RawGroup>)
    requires r.Valid() && r.Left().Some?
    modifies r
    ensures r.Valid() && good == ParseList(ParseGroup, old(r.Left()).value).Got?
    ensures good ==> Got(raw, r.input[r.pos..]) == ParseList(ParseGroup, old(r.Left()).value) && r.ok
    ensures good ==> out == Mapped(GroupOf, raw)
  {
    hide ParseGroup;
    out, raw := [], [];
    var n := r.Int(2);
    if !r.ok || n > MAX_LIST { return false, [], []; }
    ghost var start := r.Left().value;
    for i := 0 to n
      invariant r.Valid() && r.ok && out == Mapped(GroupOf, raw)
      invariant ParseItems(ParseGroup, start, i) == Got(raw, r.input[r.pos..])
    {
      var one, g, h := ReadGroup(r);
      if !one {
        ItemsFail(ParseGroup, start, i + 1, n);
        return false, [], [];
      }
      out, raw := out + [g], raw + [h];
    }
    good := true;
  }

  method ReadGroup(r: ByteReader) returns (good: bool, g: TagGroup, ghost raw: RawGroup)
    requires r.Valid() && r.Left().Some?
    modifies r
    ensures r.Valid() && good == ParseGroup(old(r.Left()).value).Got?
    ensures good ==> Got(raw, r.input[r.pos..]) == ParseGroup(old(r.Left()).value) && g == GroupOf(raw) && r.ok
  {
    hide ParseString, ParseList;
    g, raw := TagGroup([], Or, []), RawGroup([], 1, []);
    var one, name := ReadString(r);
    if !one { return false, g, raw; }
    var c, b := ReadCombinator(r);
    if !r.ok { return false, g, raw; }
    var all, tags := ReadStringList(r);
    if !all { return false, g, raw; }
    good, g, raw := true, TagGroup(name, c, tags), RawGroup(name, b, tags);
  }

  method ReadLists(r: ByteReader)
    returns (good: bool, included: seq<WeightedTag>, exclude: seq<seq<byte>>, groups: seq<TagGroup>,
             ghost raw: seq<RawGroup>)
    requires r.Valid() && r.Left().Some?
    modifies r
    ensures r.Valid() && good == ParseLists(old(r.Left()).value).Got?
    ensures good ==> Got((included, exclude, raw), r.input[r.pos..]) == ParseLists(old(r.Left()).value) && r.ok
    ensures good ==> groups == Mapped(GroupOf, raw)
  {
    hide ParseList, Mapped;
    included, exclude, groups, raw := [], [], [], [];
    good, included := ReadWeightedList(r);
    if !good { return; }
    good, exclude := ReadStringList(r);
    if !good { return; }
    good, groups, raw := ReadGroups(r);
  }

  method ReadEnd(r: ByteReader)
    returns (good: bool, join: Combinator, name: seq<byte>, scope: SearchScope, ghost raw: (byte, seq<byte>, byte))
    requires r.Valid() && r.Left().Some?
    modifies r
    ensures r.Valid() && good == ParseEnd(old(r.Left()).value).Got?
    ensures good ==> Got(raw, r.input[r.pos..]) == ParseEnd(old(r.Left()).value) && r.ok
    ensures good ==> join == CombinatorOf(raw.0) && name == raw.1 && scope == ScopeOf(raw.2)
  {
    hide ParseString;
    good, name, scope, raw := false, [], Both, (0, [], 0);
    ghost var joinByte;
    join, joinByte := ReadCombinator(r);
    if !r.ok { return; }
    good, name := ReadString(r);
    if !good { return; }
    var b := ReadByte(r);
    good, scope, raw := r.ok, ScopeOf(b), (joinByte, name, b);
  }

  lemma DecodeIs(s: seq<byte>)
    ensures Decode(s).Some? <==>
              && s != [] && s[0] == QUERY_VERSION && ParseLists(s[1..]).Got?
              && var e := ParseEnd(ParseLists(s[1..]).rest);
                 e.Got? && e.rest == []
    ensures Decode(s).Some? ==>
              var l := ParseLists(s[1..]);
              var e := ParseEnd(l.rest).value;
              Decode(s).value ==
                Query(l.value.0, l.value.1, Mapped(GroupOf, l.value.2), CombinatorOf(e.0), e.1, ScopeOf(e.2))
  {
    hide ParseLists, ParseEnd, Mapped;
  }

  /** The query, and whether the whole blob was one. */
  method DeserializeQuery(input: seq<byte>) returns (good: bool, out: Query)
    ensures good == Decode(input).Some?
    ensures good ==> out == Decode(input).value
  {
    DecodeIs(input);
    hide Decode, ParseLists, ParseEnd, Mapped;
    out := Query([], [], [], And, [], Both);
    var r := new ByteReader(input);
    var version := ReadByte(r);
    if version != QUERY_VERSION || !r.ok { return false, out; }
    var included, exclude, groups, join, name, scope;
    ghost var raw, rawEnd;
    good, included, exclude, groups, raw := ReadLists(r);
    if !good { return; }
    good, join, name, scope, rawEnd := ReadEnd(r);
    if !good { return; }
    out := Query(included, exclude, groups, join, name, scope);
    var left := r.Remaining();
    good := left == 0;
  }
}
