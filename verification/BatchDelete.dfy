/** What a multi-select delete is about to remove: selected paths with those inside other selected paths
    dropped, and a tally of the subtrees that remain. */
module BatchDelete {
  import opened Common

  // ---- Pruning ------------------------------------------------------------------------------------

  /** `p` lies inside `q`: it continues it past a separator. */
  predicate Inside(p: string, q: string) {
    |p| > |q| + 1 && p[|q|] == '/' && p[..|q|] == q
  }

  predicate InsideOneOf(p: string, paths: seq<string>) {
    exists j :: 0 <= j < |paths| && Inside(p, paths[j])
  }

  /** The `paths` that lie inside none of `others`, in order. */
  function Outermost(paths: seq<string>, others: seq<string>): seq<string> {
    if paths == [] then []
    else
      var n := |paths| - 1;
      Outermost(paths[..n], others) + if InsideOneOf(paths[n], others) then [] else [paths[n]]
  }

  lemma InsideIsTransitive(p: string, q: string, r: string)
    requires Inside(p, q) && Inside(q, r)
    ensures Inside(p, r)
  {
    assert p[..|r|] == p[..|q|][..|r|];
    assert p[|r|] == p[..|q|][|r|];
  }

  lemma {:induction false} OutermostIs(paths: seq<string>, others: seq<string>, p: string)
    ensures p in Outermost(paths, others) <==> p in paths && !InsideOneOf(p, others)
    decreases |paths|
  {
    if paths != [] {
      var n := |paths| - 1;
      OutermostIs(paths[..n], others, p);
      hide InsideOneOf;
      assert paths == paths[..n] + [paths[n]];
    }
  }

  /** Where in the selection the paths kept stand. */
  function KeptAt(paths: seq<string>, others: seq<string>): seq<nat> {
    if paths == [] then []
    else
      var n := |paths| - 1;
      KeptAt(paths[..n], others) + if InsideOneOf(paths[n], others) then [] else [n]
  }

  /** What is kept stands in the order it was selected. */
  lemma {:induction false} OrderIsKept(paths: seq<string>, others: seq<string>)
    ensures var at, kept := KeptAt(paths, others), Outermost(paths, others);
            && |at| == |kept|
            && (forall k :: 0 <= k < |at| ==> at[k] < |paths| && paths[at[k]] == kept[k])
            && forall j, k :: 0 <= j < k < |at| ==> at[j] < at[k]
    decreases |paths|
  {
    if paths != [] {
      hide InsideOneOf;
      OrderIsKept(paths[..|paths| - 1], others);
    }
  }

  /** And each selection is kept exactly when it lies inside none of the others, duplicates included. */
  lemma {:induction false} KeptExactly(paths: seq<string>, others: seq<string>, i: nat)
    requires i < |paths|
    ensures i in KeptAt(paths, others) <==> !InsideOneOf(paths[i], others)
    decreases |paths|
  {
    hide InsideOneOf;
    var n := |paths| - 1;
    OrderIsKept(paths[..n], others);
    if i < n { KeptExactly(paths[..n], others, i); }
  }

  /** Every selected path is kept, or lies inside one that is. */
  lemma {:induction false} EveryPathIsCovered(paths: seq<string>, p: string) returns (q: string)
    requires p in paths
    ensures q in Outermost(paths, paths) && (q == p || Inside(p, q))
    decreases |p|
  {
    if InsideOneOf(p, paths) {
      var j :| 0 <= j < |paths| && Inside(p, paths[j]);
      q := EveryPathIsCovered(paths, paths[j]);
      if q != paths[j] { InsideIsTransitive(p, paths[j], q); }
    } else {
      q := p;
      OutermostIs(paths, paths, p);
    }
  }

  /** Nothing kept lies inside any selected path. */
  lemma NothingKeptIsInside(paths: seq<string>, p: string, q: string)
    requires p in Outermost(paths, paths) && q in paths
    ensures !Inside(p, q)
  {
    OutermostIs(paths, paths, p);
    var j :| 0 <= j < |paths| && paths[j] == q;
  }

  lemma {:induction false} AllOutermost(paths: seq<string>, others: seq<string>)
    requires forall i :: 0 <= i < |paths| ==> !InsideOneOf(paths[i], others)
    ensures Outermost(paths, others) == paths
    decreases |paths|
  {
    if paths != [] {
      var n := |paths| - 1;
      hide InsideOneOf;
      AllOutermost(paths[..n], others);
      assert paths == paths[..n] + [paths[n]];
    }
  }

  /** Pruning again changes nothing. */
  lemma PruningIsIdempotent(paths: seq<string>)
    ensures var kept := Outermost(paths, paths); Outermost(kept, kept) == kept
  {
    var kept := Outermost(paths, paths);
    forall i | 0 <= i < |kept|
      ensures !InsideOneOf(kept[i], kept)
    {
      forall j | 0 <= j < |kept|
        ensures !Inside(kept[i], kept[j])
      {
        OutermostIs(paths, paths, kept[j]);
        NothingKeptIsInside(paths, kept[i], kept[j]);
      }
    }
    AllOutermost(kept, kept);
  }

  method PruneDescendantPaths(paths: seq<string>) returns (out: seq<string>)
    ensures out == Outermost(paths, paths)
  {
    out := [];
    for i := 0 to |paths|
      invariant out == Outermost(paths[..i], paths)
    {
      var p := paths[i];
      var inside := false;
      for j := 0 to |paths|
        invariant !inside && forall k :: 0 <= k < j ==> !Inside(p, paths[k])
      {
        var q := paths[j];
        if |p| > |q| + 1 && p[|q|] == '/' && p[..|q|] == q {
          inside := true;
          break;
        }
      }
      assert paths[..i + 1][..i] == paths[..i];
      if !inside { out := out + [p]; }
    }
    assert paths[..|paths|] == paths;
  }

  // ---- The gallery tree ---------------------------------------------------------------------------

  datatype Kind = Gallery | Image | Video

  /** `bytes` is the plaintext size of an image or video. */
  datatype Node = Node(kind: Kind, name: string, bytes: nat, children: seq<Node>)

  /** Which child to go to at each level. */
  type Location = seq<nat>

  /** The segments of a path; empty ones are skipped. */
  function Split(path: string): (segments: seq<string>)
    ensures forall i :: 0 <= i < |segments| ==> segments[i] != ""
    decreases |path|
  {
    if path == "" then []
    else if path[0] == '/' then Split(path[1..])
    else
      var n := SegmentLength(path);
      [path[..n]] + Split(path[n..])
  }

  function SegmentLength(path: string): (n: nat)
    ensures n <= |path| && (path != "" && path[0] != '/' ==> n > 0)
  {
    if path == "" || path[0] == '/' then 0 else 1 + SegmentLength(path[1..])
  }

  /** The first of the first `n` children with this name, or `n`. With `gallery`, only galleries count. */
  function FindChild(children: seq<Node>, name: string, gallery: bool): (i: nat)
    ensures i <= |children|
    ensures i < |children| ==> children[i].name == name && (gallery ==> children[i].kind.Gallery?)
  {
    if children == [] then 0
    else if children[0].name == name && (gallery ==> children[0].kind.Gallery?) then 0
    else 1 + FindChild(children[1..], name, gallery)
  }

  /** All but the last segment must name galleries. */
  function ResolveIn(node: Node, segments: seq<string>): Option<Location>
    decreases |segments|
  {
    if segments == [] then Some([])
    else
      var i := FindChild(node.children, segments[0], |segments| > 1);
      if i == |node.children| then None
      else
        var rest := ResolveIn(node.children[i], segments[1..]);
        if rest.None? then None else Some([i] + rest.value)
  }

  function Resolve(root: Node, path: string): Option<Location> { ResolveIn(root, Split(path)) }

  /** A place in the tree: every node on the way to it is a gallery. */
  predicate IsPlace(node: Node, l: Location) {
    l == [] || (node.kind.Gallery? && l[0] < |node.children| && IsPlace(node.children[l[0]], l[1..]))
  }

  function NodeAt(node: Node, l: Location): Node
    requires IsPlace(node, l)
  {
    if l == [] then node else NodeAt(node.children[l[0]], l[1..])
  }

  function NamesAlong(node: Node, l: Location): (names: seq<string>)
    requires IsPlace(node, l)
    ensures |names| == |l|
  {
    if l == [] then [] else [node.children[l[0]].name] + NamesAlong(node.children[l[0]], l[1..])
  }

  lemma {:induction false} ResolvedPlace(node: Node, segments: seq<string>)
    requires node.kind.Gallery? || segments == []
    ensures var l := ResolveIn(node, segments);
            l.Some? ==> IsPlace(node, l.value) && NamesAlong(node, l.value) == segments
    decreases |segments|
  {
    if segments != [] && ResolveIn(node, segments).Some? {
      var i := FindChild(node.children, segments[0], |segments| > 1);
      ResolvedPlace(node.children[i], segments[1..]);
      var l := ResolveIn(node, segments).value;
      assert l[1..] == ResolveIn(node.children[i], segments[1..]).value;
    }
  }

  /** No two children of a gallery share a name. */
  predicate Unambiguous(node: Node)
    decreases node
  {
    && (forall i, j :: 0 <= i < j < |node.children| ==> node.children[i].name != node.children[j].name)
    && forall i :: 0 <= i < |node.children| ==> Unambiguous(node.children[i])
  }

  lemma {:induction false} FoundByName(children: seq<Node>, i: nat, gallery: bool)
    requires i < |children| && (gallery ==> children[i].kind.Gallery?)
    requires forall j :: 0 <= j < |children| && j != i ==> children[j].name != children[i].name
    ensures FindChild(children, children[i].name, gallery) == i
    decreases i
  {
    if i > 0 { FoundByName(children[1..], i - 1, gallery); }
  }

  /** Every place is found by the names along the way to it. */
  lemma {:induction false} EveryPlaceResolves(node: Node, l: Location)
    requires IsPlace(node, l) && Unambiguous(node)
    ensures ResolveIn(node, NamesAlong(node, l)) == Some(l)
    decreases |l|
  {
    if l != [] {
      var child := node.children[l[0]];
      FoundByName(node.children, l[0], |l| > 1);
      EveryPlaceResolves(child, l[1..]);
      assert NamesAlong(node, l)[1..] == NamesAlong(child, l[1..]);
      assert [l[0]] + l[1..] == l;
    }
  }

  lemma {:induction false} NamesOfPrefix(node: Node, l: Location, k: nat)
    requires IsPlace(node, l) && k <= |l|
    ensures IsPlace(node, l[..k]) && NamesAlong(node, l[..k]) == NamesAlong(node, l)[..k]
    decreases |l|
  {
    if k > 0 {
      NamesOfPrefix(node.children[l[0]], l[1..], k - 1);
      assert l[..k][1..] == l[1..][..k - 1];
    }
  }

  // ---- Tallies ------------------------------------------------------------------------------------

  datatype Counts = Counts(galleries: nat, images: nat, videos: nat, bytes: nat) {
    function Plus(c: Counts): Counts {
      Counts(galleries + c.galleries, images + c.images, videos + c.videos, bytes + c.bytes)
    }
    function Items(): nat { galleries + images + videos }
  }

  /** The node itself. */
  function Self(node: Node): Counts {
    match node.kind
    case Gallery => Counts(1, 0, 0, 0)
    case Image => Counts(0, 1, 0, node.bytes)
    case Video => Counts(0, 0, 1, node.bytes)
  }

  /** Everything strictly below `node`; only galleries have anything below them. */
  function Below(node: Node): Counts
    decreases node, 1, 0
  {
    if node.kind.Gallery? then BelowFirst(node, |node.children|) else Counts(0, 0, 0, 0)
  }

  function BelowFirst(node: Node, k: nat): Counts
    requires k <= |node.children|
    decreases node, 0, k
  {
    if k == 0 then Counts(0, 0, 0, 0)
    else BelowFirst(node, k - 1).Plus(Self(node.children[k - 1])).Plus(Below(node.children[k - 1]))
  }

  function Tally(node: Node): Counts { Self(node).Plus(Below(node)) }

  /** The places of a subtree whose top stands at `at`. */
  ghost function Places(node: Node, at: Location): set<Location>
    decreases node, 1, 0
  {
    {at} + if node.kind.Gallery? then PlacesFirst(node, at, |node.children|) else {}
  }

  ghost function PlacesFirst(node: Node, at: Location, k: nat): set<Location>
    requires k <= |node.children|
    decreases node, 0, k
  {
    if k == 0 then {} else PlacesFirst(node, at, k - 1) + Places(node.children[k - 1], at + [k - 1])
  }

  lemma {:induction false} PlacesLieUnder(node: Node, at: Location, l: Location)
    requires l in Places(node, at)
    ensures at <= l
    decreases node, 1, 0
  {
    if l != at { PlacesFirstLieUnder(node, at, |node.children|, l); }
  }

  lemma {:induction false} PlacesFirstLieUnder(node: Node, at: Location, k: nat, l: Location)
    requires k <= |node.children| && l in PlacesFirst(node, at, k)
    ensures |at| < |l| && at <= l && l[|at|] < k
    decreases node, 0, k
  {
    if l in PlacesFirst(node, at, k - 1) {
      PlacesFirstLieUnder(node, at, k - 1, l);
    } else {
      PlacesLieUnder(node.children[k - 1], at + [k - 1], l);
      assert l[..|at| + 1] == at + [k - 1];
    }
  }

  lemma UnionSize<T>(a: set<T>, b: set<T>)
    ensures |a + b| <= |a| + |b|
    ensures |a + b| == |a| + |b| <==> a !! b
  {
    assert a + b == a + (b - a) && a !! b - a;
    assert |a + b| == |a| + |b - a|;
    if a !! b {
      assert b - a == b;
    } else {
      assert b == (b - a) + (a * b) && b - a !! a * b;
    }
  }

  lemma OnePlaceAndBelow(node: Node, at: Location)
    ensures Places(node, at) == {at} + if node.kind.Gallery? then PlacesFirst(node, at, |node.children|) else {}
    ensures Tally(node).Items() == 1 + if node.kind.Gallery? then BelowFirst(node, |node.children|).Items() else 0
  {
    hide PlacesFirst, BelowFirst;
  }

  /** The tally of a subtree is the number of its places. */
  lemma {:induction false} TallyCountsPlaces(node: Node, at: Location)
    ensures |Places(node, at)| == Tally(node).Items()
    decreases node, 1, 0
  {
    hide *;
    OnePlaceAndBelow(node, at);
    if node.kind.Gallery? {
      var under := PlacesFirst(node, at, |node.children|);
      FirstTallyCountsPlaces(node, at, |node.children|);
      if at in under { PlacesFirstLieUnder(node, at, |node.children|, at); }
      UnionSize({at}, under);
    }
  }

  lemma OneChildMore(node: Node, at: Location, k: nat)
    requires 0 < k <= |node.children|
    ensures PlacesFirst(node, at, k) == PlacesFirst(node, at, k - 1) + Places(node.children[k - 1], at + [k - 1])
    ensures BelowFirst(node, k) == BelowFirst(node, k - 1).Plus(Tally(node.children[k - 1]))
    ensures BelowFirst(node, k).Items() == BelowFirst(node, k - 1).Items() + Tally(node.children[k - 1]).Items()
  {
    hide Places, Below, Self;
  }

  lemma {:induction false} FirstTallyCountsPlaces(node: Node, at: Location, k: nat)
    requires k <= |node.children|
    ensures |PlacesFirst(node, at, k)| == BelowFirst(node, k).Items()
    decreases node, 0, k
  {
    if k == 0 {
      NoChildren(node, at);
      hide *;
    } else {
      hide *;
      var child := node.children[k - 1];
      FirstTallyCountsPlaces(node, at, k - 1);
      TallyCountsPlaces(child, at + [k - 1]);
      OneChildMore(node, at, k);
      ChildIsApart(node, at, k);
      UnionSize(PlacesFirst(node, at, k - 1), Places(child, at + [k - 1]));
    }
  }

  lemma NoChildren(node: Node, at: Location)
    ensures PlacesFirst(node, at, 0) == {} && BelowFirst(node, 0).Items() == 0
  {
    hide Places, Below;
  }

  lemma ChildIsApart(node: Node, at: Location, k: nat)
    requires 0 < k <= |node.children|
    ensures PlacesFirst(node, at, k - 1) !! Places(node.children[k - 1], at + [k - 1])
  {
    hide Places, PlacesFirst;
    var before, here := PlacesFirst(node, at, k - 1), Places(node.children[k - 1], at + [k - 1]);
    forall l | l in before
      ensures l !in here
    {
      PlacesFirstLieUnder(node, at, k - 1, l);
      if l in here {
        ChildPlaceGoesThere(node.children[k - 1], at, k - 1, l);
        assert false;
      }
    }
  }

  lemma ChildPlaceGoesThere(child: Node, at: Location, i: nat, l: Location)
    requires l in Places(child, at + [i])
    ensures |l| > |at| && l[|at|] == i
  {
    PlacesLieUnder(child, at + [i], l);
    assert l[..|at| + 1] == at + [i];
  }

  lemma {:induction false} PlacesGrow(node: Node, at: Location, i: nat, k: nat)
    requires i < k <= |node.children|
    ensures Places(node.children[i], at + [i]) <= PlacesFirst(node, at, k)
    decreases k
  {
    if i < k - 1 { PlacesGrow(node, at, i, k - 1); }
  }

  /** A subtree's places include those of every place in it. */
  lemma {:induction false} PlacesNest(node: Node, at: Location, l: Location)
    requires IsPlace(node, l)
    ensures Places(NodeAt(node, l), at + l) <= Places(node, at) && at + l in Places(NodeAt(node, l), at + l)
    decreases |l|
  {
    if l == [] {
      assert at + l == at;
    } else {
      PlacesNest(node.children[l[0]], at + [l[0]], l[1..]);
      PlacesGrow(node, at, l[0], |node.children|);
      assert at + [l[0]] + l[1..] == at + l;
    }
  }

  // ---- The union of what is selected --------------------------------------------------------------

  predicate ArePlaces(root: Node, targets: seq<Location>) {
    forall i :: 0 <= i < |targets| ==> IsPlace(root, targets[i])
  }

  ghost function SubtreeAt(root: Node, l: Location): set<Location>
    requires IsPlace(root, l)
  {
    Places(NodeAt(root, l), l)
  }

  /** Every node that goes when the subtrees at `targets` go. */
  ghost function Removed(root: Node, targets: seq<Location>): set<Location>
    requires ArePlaces(root, targets)
  {
    if targets == [] then {}
    else Removed(root, targets[..|targets| - 1]) + SubtreeAt(root, targets[|targets| - 1])
  }

  /** The subtrees' tallies, added up. */
  function Total(root: Node, targets: seq<Location>): Counts
    requires ArePlaces(root, targets)
  {
    if targets == [] then Counts(0, 0, 0, 0)
    else Total(root, targets[..|targets| - 1]).Plus(Tally(NodeAt(root, targets[|targets| - 1])))
  }

  predicate Comparable(a: Location, b: Location) { a <= b || b <= a }

  /** No target lies at or under another. */
  predicate Apart(targets: seq<Location>) {
    forall i, j :: 0 <= i < j < |targets| ==> !Comparable(targets[i], targets[j])
  }

  /** Two subtrees share a node exactly when one holds the other's top. */
  lemma SubtreesMeet(root: Node, a: Location, b: Location)
    requires IsPlace(root, a) && IsPlace(root, b)
    ensures SubtreeAt(root, a) !! SubtreeAt(root, b) <==> !Comparable(a, b)
  {
    forall l | l in SubtreeAt(root, a) && l in SubtreeAt(root, b)
      ensures Comparable(a, b)
    {
      PlacesLieUnder(NodeAt(root, a), a, l);
      PlacesLieUnder(NodeAt(root, b), b, l);
      if |a| <= |b| { assert l[..|b|][..|a|] == l[..|a|]; } else { assert l[..|a|][..|b|] == l[..|b|]; }
    }
    if a <= b { UnderMeets(root, a, b); }
    if b <= a { UnderMeets(root, b, a); }
  }

  lemma UnderMeets(root: Node, a: Location, b: Location)
    requires IsPlace(root, a) && IsPlace(root, b) && a <= b
    ensures b in SubtreeAt(root, a) && b in SubtreeAt(root, b)
  {
    assert a + b[|a|..] == b;
    NodeBelow(root, a, b[|a|..]);
    PlacesNest(NodeAt(root, a), a, b[|a|..]);
  }

  lemma {:induction false} NodeBelow(node: Node, a: Location, m: Location)
    requires IsPlace(node, a + m)
    ensures IsPlace(node, a) && IsPlace(NodeAt(node, a), m) && NodeAt(NodeAt(node, a), m) == NodeAt(node, a + m)
    decreases |a|
  {
    if a == [] {
      assert a + m == m;
    } else {
      assert (a + m)[1..] == a[1..] + m;
      NodeBelow(node.children[a[0]], a[1..], m);
    }
  }

  lemma {:induction false} InRemoved(root: Node, targets: seq<Location>, l: Location)
    requires ArePlaces(root, targets)
    ensures l in Removed(root, targets) <==> exists i :: 0 <= i < |targets| && l in SubtreeAt(root, targets[i])
    decreases |targets|
  {
    if targets != [] {
      var n := |targets| - 1;
      InRemoved(root, targets[..n], l);
      hide SubtreeAt;
      if l in Removed(root, targets[..n]) {
        var i :| 0 <= i < n && l in SubtreeAt(root, targets[..n][i]);
        assert l in SubtreeAt(root, targets[i]);
      }
      if i :| 0 <= i < |targets| && l in SubtreeAt(root, targets[i]) {
        if i < n { assert targets[..n][i] == targets[i]; }
      }
    }
  }

  /** The last target's subtree is new exactly when it is apart from all before it. */
  lemma LastIsApart(root: Node, targets: seq<Location>)
    requires ArePlaces(root, targets) && targets != []
    ensures var n := |targets| - 1;
            Removed(root, targets[..n]) !! SubtreeAt(root, targets[n]) <==>
            forall i :: 0 <= i < n ==> !Comparable(targets[i], targets[n])
  {
    var n := |targets| - 1;
    var before, here := Removed(root, targets[..n]), SubtreeAt(root, targets[n]);
    forall i | 0 <= i < n
      ensures SubtreeAt(root, targets[i]) <= before
      ensures SubtreeAt(root, targets[i]) !! here <==> !Comparable(targets[i], targets[n])
    {
      SubtreesMeet(root, targets[i], targets[n]);
      forall l | l in SubtreeAt(root, targets[i]) ensures l in before {
        InRemoved(root, targets[..n], l);
        assert targets[..n][i] == targets[i];
      }
    }
    forall l | l in before
      ensures exists i :: 0 <= i < n && l in SubtreeAt(root, targets[i])
    {
      InRemoved(root, targets[..n], l);
      var i :| 0 <= i < n && l in SubtreeAt(root, targets[..n][i]);
      assert l in SubtreeAt(root, targets[i]);
    }
    hide SubtreeAt, Comparable, Removed;
  }

  /** The items tallied are at least the nodes removed, and as many exactly when no target lies at or
      under another. */
  lemma {:induction false} TotalCountsRemoved(root: Node, targets: seq<Location>)
    requires ArePlaces(root, targets)
    ensures |Removed(root, targets)| <= Total(root, targets).Items()
    ensures |Removed(root, targets)| == Total(root, targets).Items() <==> Apart(targets)
    decreases |targets|
  {
    if targets != [] {
      var n := |targets| - 1;
      var before, here := Removed(root, targets[..n]), SubtreeAt(root, targets[n]);
      TotalCountsRemoved(root, targets[..n]);
      TallyCountsPlaces(NodeAt(root, targets[n]), targets[n]);
      LastIsApart(root, targets);
      UnionSize(before, here);
      ApartSnoc(targets);
      hide Tally, Comparable, Apart, Places;
    }
  }

  lemma ApartSnoc(targets: seq<Location>)
    requires targets != []
    ensures var n := |targets| - 1;
            Apart(targets) <==> Apart(targets[..n]) && forall i :: 0 <= i < n ==> !Comparable(targets[i], targets[n])
  {
    hide Comparable;
    var n := |targets| - 1;
    assert forall i :: 0 <= i < n ==> targets[..n][i] == targets[i];
  }

  // ---- Kind by kind ---------------------------------------------------------------------------------

  datatype Measure = Galleries | Images | Videos | Bytes

  function Part(c: Counts, m: Measure): nat {
    match m case Galleries => c.galleries case Images => c.images case Videos => c.videos case Bytes => c.bytes
  }

  /** What one node adds: one to the number of its kind, and, when it is no gallery, its bytes. */
  function Adds(node: Node, m: Measure): nat {
    match m
    case Galleries => if node.kind.Gallery? then 1 else 0
    case Images => if node.kind.Image? then 1 else 0
    case Videos => if node.kind.Video? then 1 else 0
    case Bytes => if node.kind.Gallery? then 0 else node.bytes
  }

  function AddsAt(root: Node, m: Measure, l: Location): nat { if IsPlace(root, l) then Adds(NodeAt(root, l), m) else 0 }

  /** All that the nodes at `places` add. */
  ghost function SumOver(root: Node, m: Measure, places: set<Location>): nat {
    if places == {} then 0
    else
      var l :| l in places;
      AddsAt(root, m, l) + SumOver(root, m, places - {l})
  }

  lemma {:induction false} SumWithout(root: Node, m: Measure, places: set<Location>, l: Location)
    requires l in places
    ensures SumOver(root, m, places) == AddsAt(root, m, l) + SumOver(root, m, places - {l})
    decreases |places|
  {
    var first :| first in places && SumOver(root, m, places) == AddsAt(root, m, first) + SumOver(root, m, places - {first});
    if first != l {
      SumWithout(root, m, places - {first}, l);
      SumWithout(root, m, places - {l}, first);
      assert places - {first} - {l} == places - {l} - {first};
    }
  }

  lemma {:induction false} SumUnion(root: Node, m: Measure, a: set<Location>, b: set<Location>)
    requires a !! b
    ensures SumOver(root, m, a + b) == SumOver(root, m, a) + SumOver(root, m, b)
    decreases |b|
  {
    if b == {} {
      assert a + b == a;
    } else {
      var l :| l in b;
      SumWithout(root, m, b, l);
      SumWithout(root, m, a + b, l);
      assert a + b - {l} == a + (b - {l});
      SumUnion(root, m, a, b - {l});
    }
  }

  lemma SumOfOne(root: Node, m: Measure, l: Location)
    ensures SumOver(root, m, {l}) == AddsAt(root, m, l)
  {
    SumWithout(root, m, {l}, l);
    assert {l} - {l} == {};
  }

  lemma PartOfPlus(a: Counts, b: Counts, m: Measure)
    ensures Part(a.Plus(b), m) == Part(a, m) + Part(b, m)
  {}

  lemma TallyParts(node: Node, m: Measure)
    ensures Part(Tally(node), m) ==
            Adds(node, m) + if node.kind.Gallery? then Part(BelowFirst(node, |node.children|), m) else 0
  {
    hide BelowFirst;
  }

  /** A subtree's tally counts its images, videos and galleries, and adds up the bytes of its media. */
  lemma {:induction false} TallySumsPlaces(root: Node, at: Location, m: Measure)
    requires IsPlace(root, at)
    ensures SumOver(root, m, SubtreeAt(root, at)) == Part(Tally(NodeAt(root, at)), m)
    decreases NodeAt(root, at), 1, 0
  {
    var node := NodeAt(root, at);
    OnePlaceAndBelow(node, at);
    TallyParts(node, m);
    SumOfOne(root, m, at);
    hide *;
    if node.kind.Gallery? {
      var under := PlacesFirst(node, at, |node.children|);
      FirstTallySumsPlaces(root, at, |node.children|, m);
      if at in under { PlacesFirstLieUnder(node, at, |node.children|, at); }
      SumUnion(root, m, {at}, under);
      PlacesAre(root, at);
      AtIs(root, at, m);
    } else {
      assert {at} + {} == {at};
      PlacesAre(root, at);
      AtIs(root, at, m);
    }
  }

  lemma PlacesAre(root: Node, at: Location)
    requires IsPlace(root, at)
    ensures SubtreeAt(root, at) == Places(NodeAt(root, at), at)
  {}

  lemma AtIs(root: Node, at: Location, m: Measure)
    requires IsPlace(root, at)
    ensures AddsAt(root, m, at) == Adds(NodeAt(root, at), m)
  {}

  lemma {:induction false} FirstTallySumsPlaces(root: Node, at: Location, k: nat, m: Measure)
    requires IsPlace(root, at) && NodeAt(root, at).kind.Gallery? && k <= |NodeAt(root, at).children|
    ensures SumOver(root, m, PlacesFirst(NodeAt(root, at), at, k)) == Part(BelowFirst(NodeAt(root, at), k), m)
    decreases NodeAt(root, at), 0, k
  {
    var node := NodeAt(root, at);
    if k == 0 {
      assert Part(BelowFirst(node, 0), m) == 0;
    } else {
      var child := node.children[k - 1];
      PlaceBelow(root, at, k - 1);
      FirstTallySumsPlaces(root, at, k - 1, m);
      TallySumsPlaces(root, at + [k - 1], m);
      OneChildMore(node, at, k);
      ChildIsApart(node, at, k);
      PartOfPlus(BelowFirst(node, k - 1), Tally(child), m);
      PlacesAre(root, at + [k - 1]);
      hide Places, PlacesFirst, BelowFirst, Tally, SumOver, SubtreeAt;
      SumUnion(root, m, PlacesFirst(node, at, k - 1), Places(child, at + [k - 1]));
    }
  }

  lemma {:induction false} PlaceBelow(root: Node, at: Location, i: nat)
    requires IsPlace(root, at) && NodeAt(root, at).kind.Gallery? && i < |NodeAt(root, at).children|
    ensures IsPlace(root, at + [i]) && NodeAt(root, at + [i]) == NodeAt(root, at).children[i]
    decreases |at|
  {
    if at == [] {
      assert at + [i] == [i] && [i][1..] == [];
    } else {
      assert (at + [i])[1..] == at[1..] + [i];
      PlaceBelow(root.children[at[0]], at[1..], i);
    }
  }

  /** When no target lies at or under another, the summary is right kind by kind and to the byte. */
  lemma {:induction false} TotalSumsRemoved(root: Node, targets: seq<Location>, m: Measure)
    requires ArePlaces(root, targets) && Apart(targets)
    ensures SumOver(root, m, Removed(root, targets)) == Part(Total(root, targets), m)
    decreases |targets|
  {
    if targets == [] {
      assert Part(Total(root, targets), m) == 0;
    } else {
      var n := |targets| - 1;
      ApartSnoc(targets);
      TotalSumsRemoved(root, targets[..n], m);
      TallySumsPlaces(root, targets[n], m);
      LastIsApart(root, targets);
      PartOfPlus(Total(root, targets[..n]), Tally(NodeAt(root, targets[n])), m);
      hide Tally, Comparable, Apart, SubtreeAt, SumOver;
      SumUnion(root, m, Removed(root, targets[..n]), SubtreeAt(root, targets[n]));
    }
  }

  // ---- The summary --------------------------------------------------------------------------------

  /** Where the paths resolve, those that do; the root's own empty path is skipped. */
  function Targets(root: Node, paths: seq<string>): seq<Location> {
    if paths == [] then []
    else
      var n := |paths| - 1;
      var l := Resolve(root, paths[n]);
      Targets(root, paths[..n]) + if l.Some? && paths[n] != "" then [l.value] else []
  }

  lemma {:induction false} TargetsArePlaces(root: Node, paths: seq<string>)
    requires root.kind.Gallery?
    ensures ArePlaces(root, Targets(root, paths))
    decreases |paths|
  {
    if paths != [] {
      TargetsArePlaces(root, paths[..|paths| - 1]);
      ResolvedPlace(root, Split(paths[|paths| - 1]));
    }
  }

  class SubtreeCounts {
    var images: nat
    var videos: nat
    var galleries: nat
    var bytes: nat

    ghost function Value(): Counts reads this { Counts(galleries, images, videos, bytes) }

    constructor ()
      ensures Value() == Counts(0, 0, 0, 0)
    {
      images, videos, galleries, bytes := 0, 0, 0, 0;
    }

    /** The node itself, without what is below it. */
    method Add(node: Node)
      modifies this
      ensures Value() == old(Value()).Plus(Self(node))
    {
      match node.kind
      case Gallery => galleries := galleries + 1;
      case Video => videos, bytes := videos + 1, bytes + node.bytes;
      case Image => images, bytes := images + 1, bytes + node.bytes;
    }
  }

  /** Adds everything below `node` to `c`; `node` itself is not counted. */
  method CountSubtree(node: Node, c: SubtreeCounts)
    requires node.kind.Gallery?
    modifies c
    ensures c.Value() == old(c.Value()).Plus(Below(node))
    decreases node
  {
    BelowIsAll(node);
    hide Below, BelowFirst, Tally;
    for i := 0 to |node.children|
      invariant c.Value() == old(c.Value()).Plus(BelowFirst(node, i))
    {
      var ch := node.children[i];
      BelowOneMore(node, i);
      NothingBelowMedia(ch);
      c.Add(ch);
      if ch.kind.Gallery? { CountSubtree(ch, c); }
    }
  }

  lemma BelowIsAll(node: Node)
    requires node.kind.Gallery?
    ensures Below(node) == BelowFirst(node, |node.children|) && BelowFirst(node, 0) == Counts(0, 0, 0, 0)
  {}

  lemma BelowOneMore(node: Node, i: nat)
    requires i < |node.children|
    ensures BelowFirst(node, i + 1) ==
            BelowFirst(node, i).Plus(Self(node.children[i])).Plus(Below(node.children[i]))
  {
    hide Below, Self;
  }

  lemma NothingBelowMedia(node: Node)
    ensures !node.kind.Gallery? ==> Below(node) == Counts(0, 0, 0, 0)
  {
    hide BelowFirst;
  }

  lemma TallyByKind(node: Node)
    ensures Tally(node) == if node.kind.Gallery? then Counts(1, 0, 0, 0).Plus(Below(node)) else Self(node)
  {
    NothingBelowMedia(node);
    hide Below;
  }

  datatype Summary = Summary(topLevel: nat, counts: Counts, itemTotal: nat)

  /** One more path, which resolves to `n`. */
  method AddTarget(s: Summary, n: Node) returns (t: Summary)
    ensures t.topLevel == s.topLevel + 1 && t.counts == s.counts.Plus(Tally(n))
    ensures t.itemTotal == s.itemTotal + Tally(n).Items()
  {
    TallyByKind(n);
    hide Tally, Below;
    var counts, items := s.counts, s.itemTotal;
    if n.kind.Gallery? {
      var c := new SubtreeCounts();
      CountSubtree(n, c);
      counts := Counts(counts.galleries + 1 + c.galleries, counts.images + c.images,
                       counts.videos + c.videos, counts.bytes + c.bytes);
      items := items + c.images + c.videos + c.galleries + 1;
    } else {
      counts := if n.kind.Video? then counts.(videos := counts.videos + 1) else counts.(images := counts.images + 1);
      counts := counts.(bytes := counts.bytes + n.bytes);
      items := items + 1;
    }
    t := Summary(s.topLevel + 1, counts, items);
  }

  method SummarizeBatchDelete(root: Node, paths: seq<string>) returns (s: Summary)
    requires root.kind.Gallery?
    ensures ArePlaces(root, Targets(root, paths)) && s.topLevel == |Targets(root, paths)|
    ensures s.counts == Total(root, Targets(root, paths)) && s.itemTotal == s.counts.Items()
  {
    s := Summary(0, Counts(0, 0, 0, 0), 0);
    TargetsArePlaces(root, []);
    for i := 0 to |paths|
      invariant ArePlaces(root, Targets(root, paths[..i])) && s.topLevel == |Targets(root, paths[..i])|
      invariant s.counts == Total(root, Targets(root, paths[..i])) && s.itemTotal == s.counts.Items()
    {
      TargetsSnoc(root, paths, i);
      hide Total, Targets, Tally, Resolve;
      var p := paths[i];
      var l := Resolve(root, p);
      if l.None? || p == "" { continue; }
      ResolvedTarget(root, p);
      TotalSnoc(root, Targets(root, paths[..i]), l.value);
      s := AddTarget(s, NodeAt(root, l.value));
    }
    assert paths[..|paths|] == paths;
  }

  lemma TargetsSnoc(root: Node, paths: seq<string>, i: nat)
    requires i < |paths|
    ensures var l := Resolve(root, paths[i]);
            Targets(root, paths[..i + 1]) ==
            if l.Some? && paths[i] != "" then Targets(root, paths[..i]) + [l.value] else Targets(root, paths[..i])
  {
    assert paths[..i + 1][..i] == paths[..i];
  }

  lemma ResolvedTarget(root: Node, p: string)
    requires root.kind.Gallery? && Resolve(root, p).Some?
    ensures IsPlace(root, Resolve(root, p).value)
  {
    ResolvedPlace(root, Split(p));
  }

  lemma TotalSnoc(root: Node, targets: seq<Location>, l: Location)
    requires ArePlaces(root, targets) && IsPlace(root, l)
    ensures ArePlaces(root, targets + [l]) && Total(root, targets + [l]) == Total(root, targets).Plus(Tally(NodeAt(root, l)))
  {
    assert (targets + [l])[..|targets|] == targets;
  }

  // ---- Each node once -----------------------------------------------------------------------------

  function Join(segments: seq<string>): string {
    if segments == [] then ""
    else if |segments| == 1 then segments[0]
    else segments[0] + "/" + Join(segments[1..])
  }

  /** No separator at either end, and none doubled. */
  predicate Canonical(path: string) { Join(Split(path)) == path }

  lemma {:induction false} JoinConcat(a: seq<string>, b: seq<string>)
    requires a != [] && b != []
    ensures Join(a + b) == Join(a) + "/" + Join(b)
  {
    assert (a + b)[1..] == a[1..] + b;
    if |a| == 1 {
      assert a[1..] + b == b;
    } else {
      JoinConcat(a[1..], b);
      assert Join(a + b) == a[0] + "/" + (Join(a[1..]) + "/" + Join(b));
    }
  }

  /** Of two canonical paths that resolve, one location begins the other only when the paths are equal or
      one lies inside the other. */
  lemma BelowMeansInside(root: Node, p: string, q: string)
    requires root.kind.Gallery? && Canonical(p) && Canonical(q) && p != ""
    requires Resolve(root, p).Some? && Resolve(root, q).Some? && Resolve(root, p).value <= Resolve(root, q).value
    ensures p == q || Inside(q, p)
  {
    var a, b := Resolve(root, p).value, Resolve(root, q).value;
    ResolvedPlace(root, Split(p));
    ResolvedPlace(root, Split(q));
    NamesOfPrefix(root, b, |a|);
    assert b[..|a|] == a;
    PrefixMeansInside(Split(p), Split(q));
    hide Join, Split, NamesAlong, ResolveIn, IsPlace;
  }

  lemma PrefixMeansInside(s: seq<string>, t: seq<string>)
    requires s <= t && s != [] && forall i :: 0 <= i < |t| ==> t[i] != ""
    ensures s == t || Inside(Join(t), Join(s))
  {
    if s != t {
      var rest := t[|s|..];
      assert t == s + rest;
      JoinConcat(s, rest);
      JoinIsNotEmpty(rest);
      hide Join;
      assert Join(t)[..|Join(s)|] == Join(s);
    }
  }

  /** A separator parts the segments before it from those after it. */
  lemma {:induction false} SplitAtSeparator(a: string, b: string)
    ensures Split(a + "/" + b) == Split(a) + Split(b)
    decreases |a|
  {
    var p := a + "/" + b;
    if a == "" {
      assert p[0] == '/' && p[1..] == b;
    } else if a[0] == '/' {
      assert p[1..] == a[1..] + "/" + b;
      SplitAtSeparator(a[1..], b);
    } else {
      SegmentUpToSeparator(a, b);
      var n := SegmentLength(a);
      assert p[..n] == a[..n] && p[n..] == a[n..] + "/" + b;
      SplitAtSeparator(a[n..], b);
    }
  }

  lemma {:induction false} SegmentUpToSeparator(a: string, b: string)
    ensures SegmentLength(a + "/" + b) == SegmentLength(a)
  {
    if a != "" && a[0] != '/' {
      assert (a + "/" + b)[1..] == a[1..] + "/" + b;
      SegmentUpToSeparator(a[1..], b);
    }
  }

  /** One canonical path is inside another exactly when its names go on from all of the other's: "holiday2024" is
      not inside "holiday". */
  lemma InsideIff(p: string, q: string)
    requires Canonical(p) && Canonical(q) && q != ""
    ensures Inside(p, q) <==> Split(q) < Split(p)
  {
    if Inside(p, q) {
      var rest := p[|q| + 1..];
      assert p == q + "/" + rest;
      SplitAtSeparator(q, rest);
      assert Split(rest) == [] ==> Split(p) == Split(q);
    }
    if Split(q) < Split(p) {
      assert Split(q) != [];
      PrefixMeansInside(Split(q), Split(p));
    }
  }

  /** Names joined by separators are split into those names. */
  lemma {:induction false} SplitUndoesJoin(segments: seq<string>)
    requires forall i :: 0 <= i < |segments| ==> segments[i] != "" && '/' !in segments[i]
    ensures Split(Join(segments)) == segments && Canonical(Join(segments))
    decreases |segments|
  {
    if |segments| == 1 {
      OneSegment(segments[0]);
    } else if segments != [] {
      OneSegment(segments[0]);
      SplitUndoesJoin(segments[1..]);
      SplitAtSeparator(segments[0], Join(segments[1..]));
    }
  }

  lemma OneSegment(name: string)
    requires name != "" && '/' !in name
    ensures Split(name) == [name]
  {
    WholeSegment(name);
    assert name[..|name|] == name && name[|name|..] == "";
  }

  lemma {:induction false} WholeSegment(name: string)
    requires '/' !in name
    ensures SegmentLength(name) == |name|
  {
    if name != "" { WholeSegment(name[1..]); }
  }

  lemma JoinIsNotEmpty(segments: seq<string>)
    requires segments != [] && segments[0] != ""
    ensures Join(segments) != ""
  {}

  lemma {:induction false} TargetOfPath(root: Node, paths: seq<string>, k: nat) returns (i: nat)
    requires k < |Targets(root, paths)|
    ensures i < |paths| && paths[i] != "" && Resolve(root, paths[i]) == Some(Targets(root, paths)[k])
    decreases |paths|
  {
    var n := |paths| - 1;
    if k < |Targets(root, paths[..n])| { i := TargetOfPath(root, paths[..n], k); } else { i := n; }
  }

  lemma {:induction false} PrunedTargetsAreApart(root: Node, paths: seq<string>)
    requires root.kind.Gallery?
    requires forall i :: 0 <= i < |paths| ==> Canonical(paths[i])
    requires AllDistinct(paths)
    requires forall i, j :: 0 <= i < |paths| && 0 <= j < |paths| ==> !Inside(paths[i], paths[j])
    ensures Apart(Targets(root, paths))
    decreases |paths|
  {
    if paths != [] {
      var n := |paths| - 1;
      var before := Targets(root, paths[..n]);
      PrunedTargetsAreApart(root, paths[..n]);
      var l := Resolve(root, paths[n]);
      if l.Some? && paths[n] != "" {
        forall k | 0 <= k < |before|
          ensures !Comparable(before[k], l.value)
        {
          var i := TargetOfPath(root, paths[..n], k);
          assert paths[..n][i] == paths[i];
          if before[k] <= l.value { BelowMeansInside(root, paths[i], paths[n]); }
          if l.value <= before[k] { BelowMeansInside(root, paths[n], paths[i]); }
        }
        ApartSnoc(before + [l.value]);
        assert (before + [l.value])[..|before|] == before;
      }
    }
  }

  predicate AllDistinct(paths: seq<string>) {
    forall i, j :: 0 <= i < j < |paths| ==> paths[i] != paths[j]
  }

  lemma {:induction false} PruningKeepsDistinct(paths: seq<string>, others: seq<string>)
    requires AllDistinct(paths)
    ensures AllDistinct(Outermost(paths, others))
    decreases |paths|
  {
    if paths != [] {
      hide InsideOneOf;
      var n := |paths| - 1;
      PruningKeepsDistinct(paths[..n], others);
      OutermostIs(paths[..n], others, paths[n]);
      var kept := Outermost(paths[..n], others);
      assert paths[n] !in paths[..n] && paths[n] !in kept;
    }
  }

  /** For distinct canonical paths, pruned, the tally counts each node that goes exactly once, kind by kind, and
      the bytes of each exactly once. */
  lemma PrunedTallyIsExact(root: Node, paths: seq<string>)
    requires root.kind.Gallery?
    requires forall i :: 0 <= i < |paths| ==> Canonical(paths[i])
    requires AllDistinct(paths)
    ensures var targets := Targets(root, Outermost(paths, paths));
            && ArePlaces(root, targets) && |Removed(root, targets)| == Total(root, targets).Items()
            && forall m :: SumOver(root, m, Removed(root, targets)) == Part(Total(root, targets), m)
  {
    var kept := Outermost(paths, paths);
    PruningKeepsDistinct(paths, paths);
    forall i | 0 <= i < |kept|
      ensures Canonical(kept[i])
    {
      OutermostIs(paths, paths, kept[i]);
    }
    forall i, j | 0 <= i < |kept| && 0 <= j < |kept|
      ensures !Inside(kept[i], kept[j])
    {
      OutermostIs(paths, paths, kept[j]);
      NothingKeptIsInside(paths, kept[i], kept[j]);
    }
    TargetsArePlaces(root, kept);
    PrunedTargetsAreApart(root, kept);
    TotalCountsRemoved(root, Targets(root, kept));
    forall m ensures SumOver(root, m, Removed(root, Targets(root, kept))) == Part(Total(root, Targets(root, kept)), m) {
      TotalSumsRemoved(root, Targets(root, kept), m);
    }
  }

  lemma {:induction false} TrailingSlash(path: string)
    ensures Split(path + "/") == Split(path)
    decreases |path|
  {
    if path == "" {
      assert Split("/") == Split("/"[1..]);
    } else if path[0] == '/' {
      assert (path + "/")[1..] == path[1..] + "/";
      TrailingSlash(path[1..]);
    } else {
      SegmentBeforeSlash(path);
      var n := SegmentLength(path);
      assert (path + "/")[n..] == path[n..] + "/" && (path + "/")[..n] == path[..n];
      TrailingSlash(path[n..]);
    }
  }

  lemma {:induction false} SegmentBeforeSlash(path: string)
    ensures SegmentLength(path + "/") == SegmentLength(path)
  {
    if path != "" && path[0] != '/' {
      assert (path + "/")[1..] == path[1..] + "/";
      SegmentBeforeSlash(path[1..]);
    }
  }

  lemma SameTargetTwice(root: Node, l: Location)
    requires IsPlace(root, l)
    ensures ArePlaces(root, [l, l]) && Total(root, [l, l]).Items() == 2 * |Removed(root, [l, l])|
  {
    var none, one, two: seq<Location> := [], [l], [l, l];
    assert two[..1] == one && one[..0] == none;
    TallyCountsPlaces(NodeAt(root, l), l);
    hide Tally, Places;
    assert Removed(root, one) == SubtreeAt(root, l);
    assert Removed(root, two) == SubtreeAt(root, l);
    assert Total(root, one).Items() == Tally(NodeAt(root, l)).Items();
  }

  lemma NeitherInside(path: string)
    ensures !InsideOneOf(path, [path, path + "/"]) && !InsideOneOf(path + "/", [path, path + "/"])
  {}

  /** Without canonical paths it is not exact: any path that resolves, selected also with a separator
      after it, survives pruning and is counted twice. */
  lemma TrailingSlashCountsTwice(root: Node, path: string)
    requires root.kind.Gallery? && path != "" && Resolve(root, path).Some?
    ensures var paths := [path, path + "/"];
            && Outermost(paths, paths) == paths && ArePlaces(root, Targets(root, paths))
            && Total(root, Targets(root, paths)).Items() == 2 * |Removed(root, Targets(root, paths))|
  {
    var paths := [path, path + "/"];
    NeitherInside(path);
    TrailingSlash(path);
    assert Resolve(root, path + "/") == Resolve(root, path);
    assert Targets(root, []) == [];
    hide *;
    AllOutermost(paths, paths);
    var l := Resolve(root, path).value;
    ResolvedTarget(root, path);
    TargetsSnoc(root, paths, 0);
    TargetsSnoc(root, paths, 1);
    assert paths[..2] == paths && paths[..0] == [];
    assert Targets(root, paths) == [l, l];
    SameTargetTwice(root, l);
  }
}
