/** The GPU texture cache: a byte-budgeted least-recently-used list with a key index beside it. */
module TextureCache {
  import opened Common

  // ---- Recency lists, on values -------------------------------------------------------------

  datatype Item = Item(key: nat, bytes: nat)

  function Weight(items: seq<Item>): nat {
    if items == [] then 0 else Weight(items[..|items| - 1]) + items[|items| - 1].bytes
  }

  /** How many of the most recent entries stay when `room` bytes are left for them. */
  function Kept(items: seq<Item>, room: int): (n: nat)
    ensures n <= |items|
  {
    if items == [] || Weight(items) <= room then |items| else Kept(items[..|items| - 1], room)
  }

  predicate Distinct(items: seq<Item>) {
    forall i, j :: 0 <= i < j < |items| ==> items[i].key != items[j].key
  }

  predicate Has(items: seq<Item>, key: nat) {
    exists i :: 0 <= i < |items| && items[i].key == key
  }

  function Promoted(items: seq<Item>, i: nat): seq<Item>
    requires i < |items|
  {
    [items[i]] + items[..i] + items[i + 1..]
  }

  function Position(items: seq<Item>, key: nat): (i: nat)
    requires Has(items, key)
    ensures i < |items| && items[i].key == key
    ensures forall j :: 0 <= j < i ==> items[j].key != key
  {
    if items[0].key == key then 0
    else
      assert Has(items[1..], key) by {
        var k :| 0 <= k < |items| && items[k].key == key;
        assert items[1..][k - 1].key == key;
      }
      1 + Position(items[1..], key)
  }

  /** The list after a hit. */
  function Hit(items: seq<Item>, key: nat): seq<Item> {
    if Has(items, key) then Promoted(items, Position(items, key)) else items
  }

  /** The list after a lookup that uploads on a miss. */
  function Shown(items: seq<Item>, item: Item, budget: nat): seq<Item> {
    if Has(items, item.key) then Hit(items, item.key)
    else [item] + items[..Kept(items, budget - item.bytes)]
  }

  lemma {:induction false} WeightSplits(items: seq<Item>, n: nat)
    requires n <= |items|
    ensures Weight(items[..n]) <= Weight(items)
    decreases |items|
  {
    if n == |items| {
      assert items[..n] == items;
    } else {
      var rest := items[..|items| - 1];
      WeightSplits(rest, n);
      assert rest[..n] == items[..n];
    }
  }

  lemma {:induction false} WeightConcat(a: seq<Item>, b: seq<Item>)
    ensures Weight(a + b) == Weight(a) + Weight(b)
    decreases |b|
  {
    if b == [] {
      assert a + b == a;
    } else {
      var n := |b| - 1;
      WeightConcat(a, b[..n]);
      assert (a + b)[..|a + b| - 1] == a + b[..n];
    }
  }

  lemma PromotedWeighsTheSame(items: seq<Item>, i: nat)
    requires i < |items|
    ensures Weight(Promoted(items, i)) == Weight(items)
  {
    hide Weight;
    var a, x, b := items[..i], [items[i]], items[i + 1..];
    WeightConcat(a + x, b);
    WeightConcat(a, x);
    WeightConcat(x + a, b);
    WeightConcat(x, a);
    assert items == a + x + b;
  }

  /** Eviction keeps the longest prefix that fits: it fits, or is empty, and one more would not. */
  lemma {:induction false} KeepsTheLongestPrefix(items: seq<Item>, room: int)
    ensures var n := Kept(items, room);
            && n <= |items|
            && (n > 0 ==> Weight(items[..n]) <= room)
            && forall m :: n < m <= |items| ==> Weight(items[..m]) > room
    decreases |items|
  {
    if items == [] || Weight(items) <= room {
      assert items[..|items|] == items;
    } else {
      var rest := items[..|items| - 1];
      KeepsTheLongestPrefix(rest, room);
      forall m | Kept(items, room) < m <= |items|
        ensures Weight(items[..m]) > room
      {
        if m == |items| { assert items[..m] == items; } else { assert items[..m] == rest[..m]; }
      }
      assert items[..Kept(items, room)] == rest[..Kept(items, room)];
    }
  }

  // ---- Inclusion --------------------------------------------------------------------------

  datatype Op = Show(item: Item) | Clear

  function Applied(items: seq<Item>, op: Op, budget: nat): seq<Item> {
    match op
    case Show(item) => Shown(items, item, budget)
    case Clear => []
  }

  function Ran(items: seq<Item>, ops: seq<Op>, budget: nat): seq<Item> {
    if ops == [] then items
    else Applied(Ran(items, ops[..|ops| - 1], budget), ops[|ops| - 1], budget)
  }

  function Misses(items: seq<Item>, ops: seq<Op>, budget: nat): nat {
    if ops == [] then 0
    else
      var n := |ops| - 1;
      Misses(items, ops[..n], budget) +
        if ops[n].Show? && !Has(Ran(items, ops[..n], budget), ops[n].item.key) then 1 else 0
  }

  /** The same list of textures, in the same order, as far as the smaller cache goes. */
  predicate Included(small: seq<Item>, large: seq<Item>) {
    |small| <= |large| && large[..|small|] == small
  }

  lemma HasInPrefix(small: seq<Item>, large: seq<Item>, key: nat)
    requires Included(small, large) && Has(small, key)
    ensures Has(large, key) && Position(large, key) == Position(small, key)
  {
    assert large[Position(small, key)].key == key;
  }

  lemma NotInPrefix(small: seq<Item>, large: seq<Item>, key: nat)
    requires Included(small, large) && Has(large, key) && !Has(small, key)
    ensures Position(large, key) >= |small|
  {
    PrefixKeys(small, large, Position(large, key));
  }

  lemma PrefixKeys(small: seq<Item>, large: seq<Item>, i: nat)
    requires Included(small, large) && i < |large|
    ensures i < |small| ==> Has(small, large[i].key)
  {
    if i < |small| { assert small[i] == large[i]; }
  }

  lemma BiggerBudgetKeepsMore(small: seq<Item>, large: seq<Item>, room1: int, room2: int)
    requires Included(small, large) && room1 <= room2
    ensures Kept(small, room1) <= Kept(large, room2)
  {
    KeepsTheLongestPrefix(small, room1);
    KeepsTheLongestPrefix(large, room2);
    var n := Kept(small, room1);
    assert large[..n] == small[..n];
  }

  lemma ShowKeepsInclusion(small: seq<Item>, large: seq<Item>, item: Item, b1: nat, b2: nat)
    requires Included(small, large) && b1 <= b2
    requires Has(large, item.key) ==> large[Position(large, item.key)] == item
    ensures Included(Shown(small, item, b1), Shown(large, item, b2))
  {
    if Has(small, item.key) {
      HasInPrefix(small, large, item.key);
      PromotedPrefix(small, large, Position(small, item.key));
    } else {
      KeepsTheLongestPrefix(small, b1 - item.bytes);
      var n := Kept(small, b1 - item.bytes);
      assert small[..n] == large[..n];
      if Has(large, item.key) {
        var i := Position(large, item.key);
        NotInPrefix(small, large, item.key);
        assert Promoted(large, i)[..n + 1] == [item] + large[..n];
      } else {
        BiggerBudgetKeepsMore(small, large, b1 - item.bytes, b2 - item.bytes);
        KeepsTheLongestPrefix(large, b2 - item.bytes);
      }
    }
  }

  /** One size for each key, throughout. */
  predicate FixedSizes(ops: seq<Op>) {
    forall i, j :: 0 <= i < |ops| && 0 <= j < |ops| && ops[i].Show? && ops[j].Show? ==>
      (ops[i].item.key == ops[j].item.key ==> ops[i].item == ops[j].item)
  }

  lemma {:induction false} ListedWereShown(ops: seq<Op>, budget: nat, k: nat)
    requires k < |Ran([], ops, budget)|
    ensures Show(Ran([], ops, budget)[k]) in ops
    decreases |ops|
  {
    if ops != [] {
      var n := |ops| - 1;
      var before, op := Ran([], ops[..n], budget), ops[n];
      if op.Show? {
        assert Ran([], ops, budget) == Shown(before, op.item, budget);
        hide *;
        forall j | 0 <= j < |before|
          ensures Show(before[j]) in ops
        {
          ListedWereShown(ops[..n], budget, j);
        }
        ShownFrom(before, op.item, budget, k);
      }
    }
  }

  lemma ShownFrom(before: seq<Item>, item: Item, budget: nat, k: nat)
    requires k < |Shown(before, item, budget)|
    ensures Shown(before, item, budget)[k] in before || Shown(before, item, budget)[k] == item
  {
    KeepsTheLongestPrefix(before, budget - item.bytes);
    hide Kept, Position;
  }

  /** Two caches with budgets b1 <= b2 shown the same textures: the smaller cache's recency list is
      always the start of the larger's. */
  lemma {:induction false} Inclusion(ops: seq<Op>, b1: nat, b2: nat)
    requires b1 <= b2 && FixedSizes(ops)
    ensures Included(Ran([], ops, b1), Ran([], ops, b2))
    decreases |ops|
  {
    if ops != [] {
      var n := |ops| - 1;
      Inclusion(ops[..n], b1, b2);
      if ops[n].Show? {
        var small, large, item := Ran([], ops[..n], b1), Ran([], ops[..n], b2), ops[n].item;
        if Has(large, item.key) { ListedWereShown(ops[..n], b2, Position(large, item.key)); }
        ShowKeepsInclusion(small, large, item, b1, b2);
      }
    }
  }

  /** So a hit in the small cache is a hit in the large one, and a larger budget never misses more. */
  lemma {:induction false} MoreBudgetNeverMissesMore(ops: seq<Op>, b1: nat, b2: nat)
    requires b1 <= b2 && FixedSizes(ops)
    ensures forall key :: Has(Ran([], ops, b1), key) ==> Has(Ran([], ops, b2), key)
    ensures Misses([], ops, b2) <= Misses([], ops, b1)
    decreases |ops|
  {
    Inclusion(ops, b1, b2);
    forall key | Has(Ran([], ops, b1), key)
      ensures Has(Ran([], ops, b2), key)
    {
      HasInPrefix(Ran([], ops, b1), Ran([], ops, b2), key);
    }
    if ops != [] { MoreBudgetNeverMissesMore(ops[..|ops| - 1], b1, b2); }
  }

  /** A lookup that does not upload on a miss is outside that theorem: it keeps the inclusion exactly
      when both caches hold the key, or neither does, or the smaller cache is empty. */
  lemma LookupKeepsInclusionIff(small: seq<Item>, large: seq<Item>, key: nat)
    requires Included(small, large) && Distinct(large)
    ensures Included(Hit(small, key), Hit(large, key)) <==> small == [] || Has(small, key) || !Has(large, key)
  {
    if Has(small, key) {
      HasInPrefix(small, large, key);
      PromotedPrefix(small, large, Position(small, key));
      hide *;
    } else if Has(large, key) && small != [] {
      assert Promoted(large, Position(large, key))[0].key == key && small[0].key != key;
    }
  }

  lemma PromotedPrefix(small: seq<Item>, large: seq<Item>, i: nat)
    requires Included(small, large) && i < |small|
    ensures Included(Promoted(small, i), Promoted(large, i))
  {}

  // ---- The cache object -------------------------------------------------------------------

  datatype Entry = Entry(key: nat, tex: nat, bytes: nat)

  function Items(entries: seq<Entry>): (items: seq<Item>)
    ensures |items| == |entries|
    ensures forall i :: 0 <= i < |items| ==> items[i] == Item(entries[i].key, entries[i].bytes)
  {
    seq(|entries|, i requires 0 <= i < |entries| => Item(entries[i].key, entries[i].bytes))
  }

  /** The textures the entries hold. */
  ghost function Textures(entries: seq<Entry>): multiset<nat> {
    if entries == [] then multiset{} else Textures(entries[..|entries| - 1]) + multiset{entries[|entries| - 1].tex}
  }

  /** Every texture ever made is either destroyed once or held by one entry. */
  ghost predicate Balanced(live: multiset<nat>, created: nat, destroyed: multiset<nat>) {
    forall t: nat :: (live + destroyed)[t] == if t < created then 1 else 0
  }

  /** The renderer has made texture `tex` and filled it with the picture of `key`. */
  datatype Made = Made(key: nat, tex: nat)

  /** The texture last made for `key`. */
  function LastMade(made: seq<Made>, key: nat): Option<nat> {
    if made == [] then None
    else if made[|made| - 1].key == key then Some(made[|made| - 1].tex)
    else LastMade(made[..|made| - 1], key)
  }

  /** Every entry holds the picture of its own key, and the latest. */
  ghost predicate Pictured(entries: seq<Entry>, made: seq<Made>) {
    forall i :: 0 <= i < |entries| ==> LastMade(made, entries[i].key) == Some(entries[i].tex)
  }

  lemma PicturedPrefix(entries: seq<Entry>, made: seq<Made>, n: nat)
    requires n <= |entries| && Pictured(entries, made)
    ensures Pictured(entries[..n], made)
  {
    hide LastMade;
  }

  lemma PicturedPromoted(entries: seq<Entry>, made: seq<Made>, at: nat)
    requires at < |entries| && Pictured(entries, made)
    ensures Pictured([entries[at]] + entries[..at] + entries[at + 1..], made)
  {
    hide LastMade;
  }

  /** A new picture changes what its own key was last given, and nothing else. */
  lemma OneMoreMade(made: seq<Made>, key: nat, tex: nat, other: nat)
    ensures LastMade(made + [Made(key, tex)], other) == if other == key then Some(tex) else LastMade(made, other)
  {
    assert (made + [Made(key, tex)])[..|made|] == made;
  }

  lemma PicturedAnew(entries: seq<Entry>, made: seq<Made>, entry: Entry)
    requires Pictured(entries, made) && !Has(Items(entries), entry.key)
    ensures Pictured([entry] + entries, made + [Made(entry.key, entry.tex)])
  {
    var all, more := [entry] + entries, made + [Made(entry.key, entry.tex)];
    forall i | 0 <= i < |all|
      ensures LastMade(more, all[i].key) == Some(all[i].tex)
    {
      OneMoreMade(made, entry.key, entry.tex, all[i].key);
      if i > 0 { assert Items(entries)[i - 1].key == all[i].key; }
    }
  }

  /** A listed texture is live: made, and not destroyed. */
  lemma ListedIsLive(entries: seq<Entry>, created: nat, destroyed: multiset<nat>, at: nat)
    requires at < |entries| && Balanced(Textures(entries), created, destroyed)
    ensures entries[at].tex < created && destroyed[entries[at].tex] == 0
  {
    var t := entries[at].tex;
    TexturesWithout(entries, at);
    assert (Textures(entries) + destroyed)[t] == if t < created then 1 else 0;
  }

  /** Each listed entry is in the index under its key. */
  ghost predicate Listed(entries: seq<Entry>, index: map<nat, Entry>) {
    forall i :: 0 <= i < |entries| ==> entries[i].key in index && index[entries[i].key] == entries[i]
  }

  /** What the index holds under a key is the listed entry with that key. */
  ghost predicate Known(entries: seq<Entry>, index: map<nat, Entry>) {
    forall k :: k in index ==> index[k].key == k && index[k] in entries
  }

  /** The index knows the listed entries and nothing else. */
  ghost predicate Indexed(entries: seq<Entry>, index: map<nat, Entry>) {
    Listed(entries, index) && Known(entries, index) && Distinct(Items(entries))
  }

  lemma TexturesSnoc(entries: seq<Entry>, entry: Entry)
    ensures Textures(entries + [entry]) == Textures(entries) + multiset{entry.tex}
  {
    assert (entries + [entry])[..|entries|] == entries;
  }

  lemma SumsRegroup(a: multiset<nat>, b: multiset<nat>, c: multiset<nat>)
    ensures (a + b) + c == a + (b + c)
  {}

  lemma SumsSwap(a: multiset<nat>, b: multiset<nat>, c: multiset<nat>)
    ensures (a + b) + c == (a + c) + b
  {}

  lemma {:induction false} TexturesConcat(a: seq<Entry>, b: seq<Entry>)
    ensures Textures(a + b) == Textures(a) + Textures(b)
    decreases |b|
  {
    if b == [] {
      assert a + b == a;
    } else {
      var first, last := b[..|b| - 1], b[|b| - 1];
      TexturesConcat(a, first);
      hide *;
      LastApart(a, b);
      TexturesSnoc(first, last);
      TexturesSnoc(a + first, last);
      SumsRegroup(Textures(a), Textures(first), multiset{last.tex});
    }
  }

  lemma LastApart(a: seq<Entry>, b: seq<Entry>)
    requires b != []
    ensures var first, last := b[..|b| - 1], b[|b| - 1];
            b == first + [last] && a + b == (a + first) + [last]
  {}

  lemma TextureAlone(entry: Entry)
    ensures Textures([entry]) == multiset{entry.tex}
  {
    assert [entry][..0] == [];
  }

  /** Taking entry `at` out of the list takes its texture out of the live ones. */
  lemma TexturesWithout(entries: seq<Entry>, at: nat)
    requires at < |entries|
    ensures Textures(entries) == Textures(entries[..at]) + multiset{entries[at].tex} + Textures(entries[at + 1..])
  {
    hide *;
    var a, x, b := entries[..at], [entries[at]], entries[at + 1..];
    assert entries == a + x + b;
    TexturesConcat(a + x, b);
    TexturesConcat(a, x);
    TextureAlone(entries[at]);
  }

  lemma DestroyBalances(live: multiset<nat>, tex: nat, created: nat, destroyed: multiset<nat>)
    requires Balanced(live + multiset{tex}, created, destroyed)
    ensures tex < created && destroyed[tex] == 0
    ensures Balanced(live, created, destroyed + multiset{tex})
  {
    assert (live + multiset{tex} + destroyed)[tex] >= 1;
    forall t: nat
      ensures (live + (destroyed + multiset{tex}))[t] == (live + multiset{tex} + destroyed)[t]
    {}
  }

  lemma MakeBalances(live: multiset<nat>, created: nat, destroyed: multiset<nat>)
    requires Balanced(live, created, destroyed)
    ensures Balanced(live + multiset{created}, created + 1, destroyed)
  {
    forall t: nat
      ensures (live + multiset{created} + destroyed)[t] == (live + destroyed)[t] + if t == created then 1 else 0
    {}
  }

  lemma DropLastIndexed(entries: seq<Entry>, index: map<nat, Entry>)
    requires entries != [] && Indexed(entries, index)
    ensures Indexed(entries[..|entries| - 1], index - {entries[|entries| - 1].key})
  {
    var n := |entries| - 1;
    DropLastItems(entries);
    assert Items(entries)[n].key == entries[n].key;
    forall i | 0 <= i < n
      ensures entries[i].key != entries[n].key
    {
      assert Items(entries)[i].key == entries[i].key;
    }
  }

  lemma DropLastItems(entries: seq<Entry>)
    requires entries != []
    ensures Items(entries[..|entries| - 1]) == Items(entries)[..|entries| - 1]
    ensures Weight(Items(entries)) == Weight(Items(entries[..|entries| - 1])) + entries[|entries| - 1].bytes
    ensures forall room :: Weight(Items(entries)) > room ==>
              Kept(Items(entries), room) == Kept(Items(entries[..|entries| - 1]), room)
  {
    assert Items(entries)[..|entries| - 1] == Items(entries[..|entries| - 1]);
  }

  lemma PushFirstItems(entries: seq<Entry>, entry: Entry)
    ensures Items([entry] + entries) == [Item(entry.key, entry.bytes)] + Items(entries)
    ensures Weight(Items([entry] + entries)) == Weight(Items(entries)) + entry.bytes
    ensures Textures([entry] + entries) == Textures(entries) + multiset{entry.tex}
  {
    var item := Item(entry.key, entry.bytes);
    assert Items([entry] + entries) == [item] + Items(entries);
    WeightConcat([item], Items(entries));
    assert [item][..0] == [];
    TexturesConcat([entry], entries);
    TextureAlone(entry);
  }

  lemma PushFirstIndexed(entries: seq<Entry>, index: map<nat, Entry>, entry: Entry)
    requires Indexed(entries, index) && !Has(Items(entries), entry.key)
    ensures Indexed([entry] + entries, index[entry.key := entry])
  {
    PushFirstItems(entries, entry);
    PushFirstDistinct(Items(entries), Item(entry.key, entry.bytes));
    PushFirstListed(entries, index, entry);
    PushFirstKnown(entries, index, entry);
    hide Listed, Known, Distinct, Items;
  }

  lemma PushFirstDistinct(items: seq<Item>, item: Item)
    requires Distinct(items) && !Has(items, item.key)
    ensures Distinct([item] + items)
  {}

  lemma PushFirstListed(entries: seq<Entry>, index: map<nat, Entry>, entry: Entry)
    requires Listed(entries, index) && !Has(Items(entries), entry.key)
    ensures Listed([entry] + entries, index[entry.key := entry])
  {
    forall i | 0 <= i < |entries|
      ensures entries[i].key != entry.key
    {
      assert Items(entries)[i].key == entries[i].key;
    }
  }

  lemma PushFirstKnown(entries: seq<Entry>, index: map<nat, Entry>, entry: Entry)
    requires Known(entries, index)
    ensures Known([entry] + entries, index[entry.key := entry])
  {
    assert entry in [entry] + entries;
  }

  /** Where each entry of the list stood before entry `at` was moved to the front. */
  lemma PromotedIndexed(entries: seq<Entry>, index: map<nat, Entry>, at: nat)
    requires at < |entries| && Indexed(entries, index)
    ensures var moved := [entries[at]] + entries[..at] + entries[at + 1..];
            Indexed(moved, index) && Items(moved) == Promoted(Items(entries), at)
  {
    PromotedDistinct(Items(entries), at);
    PromotedItems(entries, at);
    PromotedListed(entries, index, at);
    PromotedKnown(entries, index, at);
    hide Items, Promoted, Distinct, Listed, Known;
  }

  lemma PromotedItems(entries: seq<Entry>, at: nat)
    requires at < |entries|
    ensures Items([entries[at]] + entries[..at] + entries[at + 1..]) == Promoted(Items(entries), at)
  {}

  lemma PromotedListed(entries: seq<Entry>, index: map<nat, Entry>, at: nat)
    requires at < |entries| && Listed(entries, index)
    ensures Listed([entries[at]] + entries[..at] + entries[at + 1..], index)
  {}

  lemma PromotedDistinct(items: seq<Item>, at: nat)
    requires at < |items| && Distinct(items)
    ensures Distinct(Promoted(items, at))
  {
    var moved := Promoted(items, at);
    assert forall i :: 0 < i < |moved| ==> moved[i] == items[if i <= at then i - 1 else i];
  }

  lemma PromotedKnown(entries: seq<Entry>, index: map<nat, Entry>, at: nat)
    requires at < |entries| && Known(entries, index)
    ensures Known([entries[at]] + entries[..at] + entries[at + 1..], index)
  {
    var moved := [entries[at]] + entries[..at] + entries[at + 1..];
    forall k | k in index
      ensures index[k] in moved
    {
      var i :| 0 <= i < |entries| && entries[i] == index[k];
      assert moved[if i == at then 0 else if i < at then i + 1 else i] == index[k];
    }
  }

  lemma PromotedTextures(entries: seq<Entry>, at: nat)
    requires at < |entries|
    ensures Textures([entries[at]] + entries[..at] + entries[at + 1..]) == Textures(entries)
  {
    hide Textures;
    TexturesWithout(entries, at);
    TexturesConcat([entries[at]] + entries[..at], entries[at + 1..]);
    TexturesConcat([entries[at]], entries[..at]);
    TextureAlone(entries[at]);
  }

  lemma FoundAt(items: seq<Item>, key: nat, at: nat)
    requires at < |items| && Distinct(items) && items[at].key == key
    ensures Has(items, key) && Position(items, key) == at
  {
    var i := Position(items, key);
    assert i == at || i < at;
  }

  predicate Uploadable(width: int, height: int, pixels: nat) {
    width > 0 && height > 0 && pixels >= width * height * 3
  }

  /** The footprint accounted: four bytes a pixel. */
  function Bytes(width: int, height: int): nat {
    if width <= 0 || height <= 0 then 0 else width * height * 4
  }

  class Cache {
    const budget: nat
    var lru: seq<Entry>              // most recently used first
    var index: map<nat, Entry>
    var total: nat
    var created: nat                 // the renderer names textures in the order it makes them
    ghost var destroyed: multiset<nat>
    ghost var made: seq<Made>        // the textures made and filled, oldest first
    ghost var refusals: nat          // how often the renderer failed

    ghost predicate Valid() reads this {
      && Indexed(lru, index)
      && Balanced(Textures(lru), created, destroyed)
      && total == Weight(Items(lru))
      && (total <= budget || |lru| == 1)
      && Pictured(lru, made)
    }

    constructor (budget: nat)
      ensures Valid() && this.budget == budget && lru == [] && made == []
    {
      this.budget := budget;
      lru, index, total, created, destroyed, made, refusals := [], map[], 0, 0, multiset{}, [], 0;
    }

    /** SDL_DestroyTexture: only a live texture, so none is destroyed twice. */
    method DestroyTexture(tex: nat)
      requires tex < created && destroyed[tex] == 0
      modifies `destroyed
      ensures destroyed == old(destroyed) + multiset{tex}
    {
      destroyed := destroyed + multiset{tex};
    }

    method Clear()
      requires Valid()
      modifies this
      ensures Valid() && lru == [] && total == 0 && created == old(created) && made == old(made)
      ensures Balanced(multiset{}, created, destroyed)
    {
      DestroyAll();
      hide Balanced;
      lru, index, total := [], map[], 0;
    }

    /** SDL_DestroyTexture on every texture listed. */
    method DestroyAll()
      requires Balanced(Textures(lru), created, destroyed)
      modifies `destroyed
      ensures Balanced(multiset{}, created, destroyed)
    {
      assert lru[0..] == lru;
      assert Textures([]) == multiset{};
      hide *;
      for i := 0 to |lru|
        invariant Balanced(Textures(lru[i..]), created, destroyed)
      {
        FirstTexture(lru, i);
        DestroyBalances(Textures(lru[i + 1..]), lru[i].tex, created, destroyed);
        DestroyTexture(lru[i].tex);
      }
      assert lru[|lru|..] == [];
    }

    static lemma FirstTexture(entries: seq<Entry>, i: nat)
      requires i < |entries|
      ensures Textures(entries[i..]) == Textures(entries[i + 1..]) + multiset{entries[i].tex}
    {
      TexturesWithout(entries[i..], 0);
      assert entries[i..][1..] == entries[i + 1..] && entries[i..][..0] == [];
    }

    method Touch(at: nat)
      requires Valid() && at < |lru|
      modifies `lru
      ensures Valid() && lru == [old(lru)[at]] + old(lru)[..at] + old(lru)[at + 1..]
      ensures Items(lru) == Promoted(old(Items(lru)), at)
    {
      hide Indexed, Balanced, Weight, Promoted, Items, Textures, Pictured;
      PicturedPromoted(lru, made, at);
      PromotedIndexed(lru, index, at);
      PromotedTextures(lru, at);
      PromotedWeighsTheSame(Items(lru), at);
      lru := [lru[at]] + lru[..at] + lru[at + 1..];
    }

    /** As `Valid`, with live textures besides those listed. */
    ghost predicate Holding(pending: multiset<nat>) reads this {
      && Indexed(lru, index)
      && Balanced(Textures(lru) + pending, created, destroyed)
      && total == Weight(Items(lru))
      && (total <= budget || |lru| == 1)
    }

    /** Drops from the least recently used end until `incoming` more bytes fit, or nothing is left. */
    method EvictFor(incoming: nat, ghost pending: multiset<nat>)
      requires Holding(pending)
      modifies `lru, `index, `total, `destroyed
      ensures Holding(pending)
      ensures lru == old(lru)[..Kept(old(Items(lru)), budget - incoming)]
      ensures lru == [] || total + incoming <= budget
    {
      hide Indexed, Balanced, Weight, Items, Textures, Kept;
      while lru != [] && total + incoming > budget
        invariant Holding(pending) && |lru| <= |old(lru)|
        invariant lru == old(lru)[..|lru|]
        invariant Kept(Items(lru), budget - incoming) == Kept(old(Items(lru)), budget - incoming)
        decreases |lru|
      {
        DropLastItems(lru);
        EvictOne(pending);
      }
      KeptAll(Items(lru), budget - incoming);
    }

    static lemma KeptAll(items: seq<Item>, room: int)
      ensures items == [] || Weight(items) <= room ==> Kept(items, room) == |items|
    {}

    method EvictOne(ghost pending: multiset<nat>)
      requires Holding(pending) && lru != []
      modifies `lru, `index, `total, `destroyed
      ensures Holding(pending) && lru == old(lru)[..|old(lru)| - 1]
    {
      hide Indexed, Balanced, Weight, Items, Textures, Kept, Has, Distinct;
      var victim := lru[|lru| - 1];
      DropLastItems(lru);
      DropLastIndexed(lru, index);
      EmptyWeighs();
      EvictedBalances(lru, pending, created, destroyed);
      DestroyTexture(victim.tex);
      total := total - victim.bytes;
      index := index - {victim.key};
      lru := lru[..|lru| - 1];
    }

    static lemma EvictedBalances(entries: seq<Entry>, pending: multiset<nat>, created: nat, destroyed: multiset<nat>)
      requires entries != [] && Balanced(Textures(entries) + pending, created, destroyed)
      ensures var n := |entries| - 1;
              && entries[n].tex < created && destroyed[entries[n].tex] == 0
              && Balanced(Textures(entries[..n]) + pending, created, destroyed + multiset{entries[n].tex})
    {
      var kept, tex := Textures(entries[..|entries| - 1]), entries[|entries| - 1].tex;
      DropLastTexture(entries);
      hide *;
      SumsSwap(kept, multiset{tex}, pending);
      DestroyBalances(kept + pending, tex, created, destroyed);
    }

    static lemma DropLastTexture(entries: seq<Entry>)
      requires entries != []
      ensures Textures(entries) == Textures(entries[..|entries| - 1]) + multiset{entries[|entries| - 1].tex}
    {}

    static lemma EmptyWeighs()
      ensures Weight(Items([])) == 0 && Textures([]) == multiset{}
    {}

    method Get(key: nat) returns (tex: Option<nat>)
      requires Valid()
      modifies `lru
      ensures Valid() && Items(lru) == Hit(old(Items(lru)), key)
      ensures tex.Some? <==> old(Has(Items(lru), key))
      ensures tex.Some? ==> lru != [] && lru[0].key == key && lru[0].tex == tex.value
      ensures tex.Some? ==> exists at :: 0 <= at < |old(lru)| && lru == [old(lru)[at]] + old(lru)[..at] + old(lru)[at + 1..]
      ensures tex.None? ==> lru == old(lru)
    {
      IndexAnswers(lru, index, key);
      if key !in index { return None; }
      var at: nat :| at < |lru| && lru[at] == index[key];
      assert Items(lru)[at].key == key;
      FoundAt(Items(lru), key, at);
      hide Indexed, Balanced, Weight, Items, Textures, Promoted, Distinct, Pictured;
      Touch(at);
      tex := Some(lru[0].tex);
    }

    static lemma IndexAnswers(entries: seq<Entry>, index: map<nat, Entry>, key: nat)
      requires Indexed(entries, index)
      ensures Has(Items(entries), key) <==> key in index
    {
      if key in index {
        var i :| 0 <= i < |entries| && entries[i] == index[key];
        assert Items(entries)[i].key == key;
      }
    }

    /** SDL_CreateTexture and SDL_UpdateTexture; either may fail, and a texture that could not be filled
        is destroyed at once. */
    method Upload(key: nat) returns (tex: Option<nat>)
      requires Balanced(Textures(lru), created, destroyed)
      modifies `created, `destroyed, `made, `refusals
      ensures refusals == old(refusals) + if tex.Some? then 0 else 1
      ensures made == if tex.Some? then old(made) + [Made(key, tex.value)] else old(made)
      ensures tex.Some? ==> tex.value == old(created) && created == tex.value + 1 && destroyed == old(destroyed)
      ensures tex.None? ==> Balanced(Textures(lru), created, destroyed)
    {
      hide Balanced, Textures;
      var given, filled := *, *;
      if !given || !filled { refusals := refusals + 1; }
      if !given { return None; }
      var name := created;
      MakeBalances(Textures(lru), created, destroyed);
      created := created + 1;
      if filled {
        made := made + [Made(key, name)];
        return Some(name);
      }
      DestroyBalances(Textures(lru), name, created, destroyed);
      DestroyTexture(name);
      tex := None;
    }

    static lemma ItemsPrefix(entries: seq<Entry>, n: nat)
      requires n <= |entries|
      ensures Items(entries[..n]) == Items(entries)[..n]
    {}

    /** Makes room and puts the texture just uploaded in front. */
    method Insert(key: nat, tex: nat, bytes: nat)
      requires Indexed(lru, index) && !Has(Items(lru), key)
      requires total == Weight(Items(lru)) && (total <= budget || |lru| == 1)
      requires created == tex + 1 && Balanced(Textures(lru), tex, destroyed)
      requires Pictured([Entry(key, tex, bytes)] + lru, made)
      modifies `lru, `index, `total, `destroyed
      ensures Valid() && lru == [Entry(key, tex, bytes)] + old(lru)[..Kept(old(Items(lru)), budget - bytes)]
      ensures Items(lru) == Shown(old(Items(lru)), Item(key, bytes), budget)
    {
      hide Indexed, Balanced, Weight, Items, Textures, Kept, Pictured;
      ghost var n := Kept(Items(lru), budget - bytes);
      PicturedPrefix([Entry(key, tex, bytes)] + lru, made, n + 1);
      assert ([Entry(key, tex, bytes)] + lru)[..n + 1] == [Entry(key, tex, bytes)] + lru[..n];
      ItemsPrefix(lru, n);
      MakeBalances(Textures(lru), tex, destroyed);
      EvictFor(bytes, multiset{tex});
      assert !Has(Items(lru), key);
      hide Has;
      EmptyWeighs();
      PushFirstItems(lru, Entry(key, tex, bytes));
      PushFirstIndexed(lru, index, Entry(key, tex, bytes));
      lru := [Entry(key, tex, bytes)] + lru;
      index := index[key := lru[0]];
      total := total + bytes;
    }

    /** The cached texture, or a new one put in front after making room. A malformed image or a failed
        upload leaves the list as it was. The answer is the texture last filled with this key's picture. */
    method GetOrUpload(key: nat, width: int, height: int, pixels: nat) returns (tex: Option<nat>)
      requires Valid()
      modifies this
      ensures Valid()
      ensures tex.Some? <==>
                || old(Has(Items(lru), key))
                || (width > 0 && height > 0 && pixels >= width * height * 3 && refusals == old(refusals))
      ensures tex.Some? ==>
                && Items(lru) == Shown(old(Items(lru)), Item(key, Bytes(width, height)), budget)
                && lru != [] && lru[0].key == key && lru[0].tex == tex.value
                && LastMade(made, key) == tex && tex.value < created && destroyed[tex.value] == 0
      ensures tex.None? ==> lru == old(lru)
      // the other entries are old ones, unchanged
      ensures forall i :: 0 < i < |lru| ==> lru[i] in old(lru)
      // a hit makes nothing; a miss that is answered fills one new texture, with this picture
      ensures if old(Has(Items(lru), key)) then created == old(created) && made == old(made) && destroyed == old(destroyed)
              else made == if tex.Some? then old(made) + [Made(key, tex.value)] else old(made)
      ensures tex.Some? && !old(Has(Items(lru), key)) ==>
                tex.value == old(created) && created == old(created) + 1 && lru[0].bytes == width * height * 4
    {
      hide Indexed, Balanced, Weight, Has, Hit, Items, Textures, Kept, Pictured;
      tex := Get(key);
      if tex.Some? {
        FrontIsLive();
        return;
      }
      if !Uploadable(width, height, pixels) { return; }
      tex := Upload(key);
      if tex.None? { return; }
      PicturedAnew(lru, old(made), Entry(key, tex.value, Bytes(width, height)));
      Insert(key, tex.value, Bytes(width, height));
      FrontIsLive();
    }

    lemma FrontIsLive()
      requires Valid() && lru != []
      ensures LastMade(made, lru[0].key) == Some(lru[0].tex) && lru[0].tex < created && destroyed[lru[0].tex] == 0
    {
      ListedIsLive(lru, created, destroyed, 0);
    }
  }

  // ---- Any run of the object ----------------------------------------------------------------

  datatype Request = Request(key: nat, width: int, height: int, pixels: nat)

  function ShowOf(r: Request): Op { Show(Item(r.key, Bytes(r.width, r.height))) }

  function Shows(requests: seq<Request>): (ops: seq<Op>)
    ensures |ops| == |requests| && forall i :: 0 <= i < |ops| ==> ops[i] == ShowOf(requests[i])
  {
    seq(|requests|, i requires 0 <= i < |requests| => ShowOf(requests[i]))
  }

  lemma OneMoreShown(items: seq<Item>, requests: seq<Request>, n: nat, budget: nat)
    requires n < |requests|
    ensures var item := ShowOf(requests[n]).item;
            var before := Ran(items, Shows(requests[..n]), budget);
            && Ran(items, Shows(requests[..n + 1]), budget) == Shown(before, item, budget)
            && Misses(items, Shows(requests[..n + 1]), budget) ==
               Misses(items, Shows(requests[..n]), budget) + if Has(before, item.key) then 0 else 1
  {
    assert requests[..n + 1][..n] == requests[..n];
    assert Shows(requests[..n + 1])[..n] == Shows(requests[..n]);
    hide Shown, Has;
  }

  /** Each answer is the texture last filled with its key's picture, `seen[i]` having been filled by then. */
  ghost predicate AnswersArePictures(requests: seq<Request>, answers: seq<Option<nat>>, seen: seq<nat>, made: seq<Made>) {
    && |answers| == |seen| <= |requests|
    && forall i :: 0 <= i < |answers| ==>
         seen[i] <= |made| && (answers[i].Some? ==> answers[i] == LastMade(made[..seen[i]], requests[i].key))
  }

  lemma OneMoreAnswer(requests: seq<Request>, answers: seq<Option<nat>>, seen: seq<nat>, before: seq<Made>,
                      made: seq<Made>, tex: Option<nat>)
    requires AnswersArePictures(requests, answers, seen, before) && |answers| < |requests| && before <= made
    requires tex.Some? ==> tex == LastMade(made, requests[|answers|].key)
    ensures AnswersArePictures(requests, answers + [tex], seen + [|made|], made)
  {
    assert made[..|made|] == made;
    hide LastMade;
    forall i | 0 <= i < |answers| ensures made[..seen[i]] == before[..seen[i]] {}
  }

  /** The list is what `requests`, all answered, make of `items`, and as many textures have been filled as they missed. */
  ghost predicate Counted(items: seq<Item>, requests: seq<Request>, budget: nat, now: seq<Item>, filled: int) {
    now == Ran(items, Shows(requests), budget) && filled == Misses(items, Shows(requests), budget)
  }

  lemma NoneCounted(items: seq<Item>, budget: nat)
    ensures Counted(items, [], budget, items, 0)
  {}

  lemma OneMoreCounted(items: seq<Item>, requests: seq<Request>, n: nat, budget: nat, before: seq<Item>, filled: int)
    requires n < |requests| && Counted(items, requests[..n], budget, before, filled)
    ensures var item := ShowOf(requests[n]).item;
            Counted(items, requests[..n + 1], budget, Shown(before, item, budget),
                    filled + if Has(before, item.key) then 0 else 1)
  {
    OneMoreShown(items, requests, n, budget);
    hide Shown, Has, Ran, Misses, Shows;
  }

  predicate AllAnswered(answers: seq<Option<nat>>) { forall i :: 0 <= i < |answers| ==> answers[i].Some? }

  /** The state of such a run after the first `n` requests. */
  ghost predicate ShownSoFar(items: seq<Item>, made: seq<Made>, requests: seq<Request>, n: nat, budget: nat,
                             answers: seq<Option<nat>>, seen: seq<nat>, itemsNow: seq<Item>, madeNow: seq<Made>)
    requires n <= |requests|
  {
    && made <= madeNow && |answers| == n
    && AnswersArePictures(requests, answers, seen, madeNow)
    && (AllAnswered(answers) ==> Counted(items, requests[..n], budget, itemsNow, |madeNow| - |made|))
  }

  lemma ShownOneMore(items: seq<Item>, made: seq<Made>, requests: seq<Request>, n: nat, budget: nat,
                     answers: seq<Option<nat>>, seen: seq<nat>, itemsNow: seq<Item>, madeNow: seq<Made>,
                     tex: Option<nat>, itemsThen: seq<Item>, madeThen: seq<Made>)
    requires n < |requests| && ShownSoFar(items, made, requests, n, budget, answers, seen, itemsNow, madeNow)
    requires madeNow <= madeThen && (tex.Some? ==> tex == LastMade(madeThen, requests[n].key))
    requires var item := ShowOf(requests[n]).item;
             tex.Some? ==>
               && itemsThen == Shown(itemsNow, item, budget)
               && |madeThen| == |madeNow| + if Has(itemsNow, item.key) then 0 else 1
    ensures ShownSoFar(items, made, requests, n + 1, budget, answers + [tex], seen + [|madeThen|], itemsThen, madeThen)
  {
    OneMoreAnswer(requests, answers, seen, madeNow, madeThen, tex);
    AllAnsweredSnoc(answers, tex);
    if AllAnswered(answers) { OneMoreCounted(items, requests, n, budget, itemsNow, |madeNow| - |made|); }
    hide AnswersArePictures, AllAnswered, Counted, Shown, Has, LastMade;
  }

  lemma AllAnsweredSnoc(answers: seq<Option<nat>>, tex: Option<nat>)
    ensures AllAnswered(answers + [tex]) <==> AllAnswered(answers) && tex.Some?
  {
    var more := answers + [tex];
    assert more[|answers|] == tex && forall i :: 0 <= i < |answers| ==> more[i] == answers[i];
  }

  /** A viewer at work: one texture after another is asked for. Each answer is the texture that was last filled
      with that key's picture; and when every request is answered, the textures filled are the misses of the
      recency list and no more. */
  method ShowAll(cache: Cache, requests: seq<Request>) returns (answers: seq<Option<nat>>, ghost seen: seq<nat>)
    requires cache.Valid()
    modifies cache
    ensures cache.Valid() && old(cache.made) <= cache.made && |answers| == |requests|
    ensures AnswersArePictures(requests, answers, seen, cache.made)
    ensures AllAnswered(answers) ==>
              Counted(old(Items(cache.lru)), requests, cache.budget, Items(cache.lru), |cache.made| - |old(cache.made)|)
  {
    ghost var items0, made0 := Items(cache.lru), cache.made;
    answers, seen := [], [];
    hide *;
    NoneShown(items0, made0, requests, cache.budget);
    for n := 0 to |requests|
      invariant cache.Valid()
      invariant ShownSoFar(items0, made0, requests, n, cache.budget, answers, seen, Items(cache.lru), cache.made)
    {
      ghost var items, made := Items(cache.lru), cache.made;
      var tex := ShowOne(cache, requests[n]);
      ShownOneMore(items0, made0, requests, n, cache.budget, answers, seen, items, made, tex, Items(cache.lru), cache.made);
      answers, seen := answers + [tex], seen + [|cache.made|];
    }
    AllShown(items0, made0, requests, cache.budget, answers, seen, Items(cache.lru), cache.made);
  }

  lemma NoneShown(items: seq<Item>, made: seq<Made>, requests: seq<Request>, budget: nat)
    ensures ShownSoFar(items, made, requests, 0, budget, [], [], items, made)
  {
    NoneCounted(items, budget);
    assert requests[..0] == [];
    hide Counted;
  }

  lemma AllShown(items: seq<Item>, made: seq<Made>, requests: seq<Request>, budget: nat, answers: seq<Option<nat>>,
                 seen: seq<nat>, itemsNow: seq<Item>, madeNow: seq<Made>)
    requires ShownSoFar(items, made, requests, |requests|, budget, answers, seen, itemsNow, madeNow)
    ensures made <= madeNow && |answers| == |requests| && AnswersArePictures(requests, answers, seen, madeNow)
    ensures AllAnswered(answers) ==> Counted(items, requests, budget, itemsNow, |madeNow| - |made|)
  {
    assert requests[..|requests|] == requests;
    hide Counted, AnswersArePictures, AllAnswered;
  }

  method ShowOne(cache: Cache, r: Request) returns (tex: Option<nat>)
    requires cache.Valid()
    modifies cache
    ensures cache.Valid() && old(cache.made) <= cache.made
    ensures tex.Some? ==> tex == LastMade(cache.made, r.key)
    ensures tex.Some? ==>
              && Items(cache.lru) == Shown(old(Items(cache.lru)), ShowOf(r).item, cache.budget)
              && |cache.made| == |old(cache.made)| + if old(Has(Items(cache.lru), ShowOf(r).item.key)) then 0 else 1
  {
    hide LastMade, Items, Shown, Has, Uploadable, Bytes;
    tex := cache.GetOrUpload(r.key, r.width, r.height, r.pixels);
  }
}
