/** The colour reduction of the sprite compiler: greedy grouping of one channel's values, and the
    in-place replacement of every pixel by the key of its group. */
module Clustering {
  import opened Words

  /** A channel value with the number of pixels that have it. */
  type Item = (int, nat)

  datatype Group = Group(key: int, members: seq<Item>)

  predicate Ascending(items: seq<Item>) {
    forall i, j :: 0 <= i < j < |items| ==> items[i].0 < items[j].0
  }

  function Colours(items: seq<Item>): set<int> {
    set p | p in items :: p.0
  }

  function Flatten(gs: seq<Group>): seq<Item> {
    if gs == [] then [] else Flatten(gs[..|gs| - 1]) + gs[|gs| - 1].members
  }

  function SumCounts(items: seq<Item>): nat {
    if items == [] then 0 else SumCounts(items[..|items| - 1]) + items[|items| - 1].1
  }

  /** The key is the largest member within `dist` of the smallest; every member is within `dist` of
      the key. */
  predicate GoodGroup(g: Group, dist: nat) {
    && g.members != [] && Ascending(g.members)
    && (exists k :: 0 <= k < |g.members| && g.members[k].0 == g.key)
    && g.key <= g.members[0].0 + dist
    && forall k :: 0 <= k < |g.members| ==>
         && g.members[k].0 <= g.key + dist
         && (g.members[k].0 <= g.members[0].0 + dist ==> g.members[k].0 <= g.key)
  }

  /** Consecutive groups are split where a colour is out of the key's reach. */
  predicate Split(gs: seq<Group>, dist: nat) {
    forall j :: 0 <= j < |gs| - 1 && gs[j + 1].members != [] ==>
      gs[j].key + dist < gs[j + 1].members[0].0
  }

  predicate IsClustering(gs: seq<Group>, items: seq<Item>, dist: nat) {
    && Flatten(gs) == items
    && (forall j :: 0 <= j < |gs| ==> GoodGroup(gs[j], dist))
    && Split(gs, dist)
  }

  // ----- sorting the dictionary of counts

  predicate IsLeast(s: set<int>, m: int) {
    m in s && forall x :: x in s ==> m <= x
  }

  lemma SomeMember(s: set<int>) returns (m: int)
    requires s != {}
    ensures m in s
  {
    if forall x: int :: x !in s {
      assert false;
    }
    m :| m in s;
  }

  lemma {:induction false} LeastOf(s: set<int>) returns (m: int)
    requires s != {}
    ensures IsLeast(s, m)
    decreases |s|
  {
    m := SomeMember(s);
    var rest := s - {m};
    if rest != {} {
      var least := LeastOf(rest);
      assert forall x :: x in s ==> x == m || x in rest;
      m := if m < least then m else least;
    } else {
      assert forall x :: x in s ==> x in rest || x == m;
    }
  }

  function Least(s: set<int>): (m: int)
    requires s != {}
    ensures IsLeast(s, m)
  {
    assert exists m :: IsLeast(s, m) by {
      var m := LeastOf(s);
    }
    var m :| IsLeast(s, m);
    m
  }

  lemma WithoutLeast(m: map<int, nat>, c: int)
    requires c in m
    ensures |m - {c}| < |m|
    ensures forall k :: k in m <==> k == c || k in m - {c}
    ensures forall k :: k in m - {c} ==> (m - {c})[k] == m[k]
  {
    assert (m - {c}).Keys == m.Keys - {c};
    assert |m.Keys| == |(m - {c}).Keys| + 1;
  }

  function SortedItems(channels: map<int, nat>): seq<Item>
    decreases |channels|
  {
    if channels == map[] then []
    else
      var c := Least(channels.Keys);
      WithoutLeast(channels, c);
      [(c, channels[c])] + SortedItems(channels - {c})
  }

  lemma {:induction false} SortedItemsHold(channels: map<int, nat>, p: Item)
    ensures p in SortedItems(channels) <==> p.0 in channels && channels[p.0] == p.1
    decreases |channels|
  {
    if channels != map[] {
      var c := Least(channels.Keys);
      WithoutLeast(channels, c);
      SortedItemsHold(channels - {c}, p);
      var rest := SortedItems(channels - {c});
      assert SortedItems(channels) == [(c, channels[c])] + rest;
    }
  }

  lemma {:induction false} SortedItemsAscend(channels: map<int, nat>)
    ensures Ascending(SortedItems(channels))
    decreases |channels|
  {
    if channels != map[] {
      var c := Least(channels.Keys);
      WithoutLeast(channels, c);
      SortedItemsAscend(channels - {c});
      var rest := SortedItems(channels - {c});
      forall j | 0 <= j < |rest| ensures c < rest[j].0 {
        SortedItemsHold(channels - {c}, rest[j]);
      }
    }
  }

  // ----- the greedy loop

  lemma FlattenSnoc(gs: seq<Group>, g: Group)
    ensures Flatten(gs + [g]) == Flatten(gs) + g.members
  {
    assert (gs + [g])[..|gs|] == gs;
  }

  lemma GrowGroup(g: Group, p: Item, key: int, dist: nat)
    requires GoodGroup(g, dist)
    requires forall k :: 0 <= k < |g.members| ==> g.members[k].0 < p.0
    requires p.0 <= g.key + dist
    requires key == if p.0 - g.members[0].0 <= dist then p.0 else g.key
    ensures GoodGroup(Group(key, g.members + [p]), dist)
  {
    var ms := g.members + [p];
    if key == p.0 {
      assert ms[|g.members|].0 == key;
    } else {
      var k :| 0 <= k < |g.members| && g.members[k].0 == g.key;
      assert ms[k].0 == key;
    }
  }

  /** What the function returns for a grouping: the pixel count under each key, and under each key the
      colours it replaces, in insertion order. */
  function Totals(gs: seq<Group>): map<int, nat> {
    if gs == [] then map[]
    else Totals(gs[..|gs| - 1])[gs[|gs| - 1].key := SumCounts(gs[|gs| - 1].members)]
  }

  function Replaced(g: Group): seq<int> {
    OtherThan(g.members, g.key)
  }

  function OtherThan(items: seq<Item>, key: int): (r: seq<int>)
    ensures forall c :: c in r <==> c in Colours(items) && c != key
  {
    if items == [] then []
    else
      var rest := items[..|items| - 1];
      var c := items[|items| - 1].0;
      assert items == rest + [items[|items| - 1]];
      OtherThan(rest, key) + if c != key then [c] else []
  }

  function Replacements(gs: seq<Group>): (r: seq<(int, seq<int>)>)
    ensures |r| == |gs|
    ensures forall j :: 0 <= j < |r| ==> r[j] == (gs[j].key, Replaced(gs[j]))
  {
    seq(|gs|, j requires 0 <= j < |gs| => (gs[j].key, Replaced(gs[j])))
  }

  /** The closed groups and the open one, after a prefix of the colours. */
  predicate Partial(gs: seq<Group>, open: Group, prefix: seq<Item>, dist: nat) {
    && Flatten(gs) + open.members == prefix
    && (forall j :: 0 <= j < |gs| ==> GoodGroup(gs[j], dist))
    && GoodGroup(open, dist)
    && Split(gs + [open], dist)
  }

  lemma Extend(gs: seq<Group>, open: Group, prefix: seq<Item>, p: Item, key: int, dist: nat)
    requires Partial(gs, open, prefix, dist)
    requires forall k :: 0 <= k < |open.members| ==> open.members[k].0 < p.0
    requires p.0 <= open.key + dist
    requires key == if p.0 - open.members[0].0 <= dist then p.0 else open.key
    ensures Partial(gs, Group(key, open.members + [p]), prefix + [p], dist)
  {
    GrowGroup(open, p, key, dist);
    Regroup(Flatten(gs), open.members, [p]);
    var open' := Group(key, open.members + [p]);
    forall j | 0 <= j < |gs|
      ensures gs[j].key + dist < (gs + [open'])[j + 1].members[0].0
    {
      assert (gs + [open])[j].key + dist < (gs + [open])[j + 1].members[0].0;
    }
  }

  lemma Close(gs: seq<Group>, open: Group, prefix: seq<Item>, dist: nat)
    requires Partial(gs, open, prefix, dist)
    ensures IsClustering(gs + [open], prefix, dist)
  {
    FlattenSnoc(gs, open);
  }

  lemma SplitSnoc(gs: seq<Group>, g: Group, dist: nat)
    requires Split(gs, dist) && (gs != [] && g.members != [] ==> gs[|gs| - 1].key + dist < g.members[0].0)
    ensures Split(gs + [g], dist)
  {
    forall j | 0 <= j < |gs| && (gs + [g])[j + 1].members != []
      ensures gs[j].key + dist < (gs + [g])[j + 1].members[0].0
    {
      if j < |gs| - 1 {
        assert gs[j + 1].members != [];
      }
    }
  }

  lemma Reopen(gs: seq<Group>, open: Group, prefix: seq<Item>, p: Item, dist: nat)
    requires Partial(gs, open, prefix, dist) && p.0 > open.key + dist
    ensures Partial(gs + [open], Group(p.0, [p]), prefix + [p], dist)
  {
    Close(gs, open, prefix, dist);
    assert [p][0].0 == p.0;
    SplitSnoc(gs + [open], Group(p.0, [p]), dist);
  }

  /** One more colour: it opens a group of its own when out of the key's reach, otherwise it joins the
      open group and becomes its key if it is in reach of the group's first colour. */
  function Next(gs: seq<Group>, open: Group, p: Item, dist: nat): (seq<Group>, Group)
    requires open.members != []
  {
    if p.0 - open.key > dist then (gs + [open], Group(p.0, [p]))
    else (gs, Group(if p.0 - open.members[0].0 <= dist then p.0 else open.key, open.members + [p]))
  }

  lemma LastIsGreatest(group: seq<Item>, p: Item)
    requires group != [] && Ascending(group) && group[|group| - 1].0 < p.0
    ensures forall k :: 0 <= k < |group| ==> group[k].0 < p.0
  {}

  lemma NextIsPartial(gs: seq<Group>, open: Group, items: seq<Item>, i: nat, dist: nat)
    requires Ascending(items) && 0 < i < |items| && Partial(gs, open, items[..i], dist)
    ensures var (gs', open') := Next(gs, open, items[i], dist);
            Partial(gs', open', items[..i + 1], dist)
  {
    var p := items[i];
    TakeOneMore(items, i);
    assert (Flatten(gs) + open.members)[i - 1] == items[..i][i - 1];
    if p.0 - open.key > dist {
      Reopen(gs, open, items[..i], p, dist);
    } else {
      LastIsGreatest(open.members, p);
      Extend(gs, open, items[..i], p, Next(gs, open, p, dist).1.key, dist);
    }
  }

  lemma FirstIsPartial(items: seq<Item>, dist: nat)
    requires items != []
    ensures Partial([], Group(items[0].0, [items[0]]), items[..1], dist)
  {
    assert [items[0]][0].0 == items[0].0;
    assert items[..1] == [items[0]];
  }

  /** The closed groups and the open one after the first `i` colours. */
  function Walked(items: seq<Item>, i: nat, dist: nat): (r: (seq<Group>, Group))
    requires 0 < i <= |items|
    ensures r.1.members != []
  {
    if i == 1 then ([], Group(items[0].0, [items[0]]))
    else
      var (gs, open) := Walked(items, i - 1, dist);
      Next(gs, open, items[i - 1], dist)
  }

  lemma {:induction false} WalkedIsPartial(items: seq<Item>, i: nat, dist: nat)
    requires Ascending(items) && 0 < i <= |items|
    ensures Partial(Walked(items, i, dist).0, Walked(items, i, dist).1, items[..i], dist)
  {
    if i == 1 {
      FirstIsPartial(items, dist);
    } else {
      WalkedIsPartial(items, i - 1, dist);
      var (gs, open) := Walked(items, i - 1, dist);
      NextIsPartial(gs, open, items, i - 1, dist);
    }
  }

  lemma WalkedIsClustering(items: seq<Item>, dist: nat)
    requires Ascending(items) && items != []
    ensures var (gs, open) := Walked(items, |items|, dist); IsClustering(gs + [open], items, dist)
  {
    WalkedIsPartial(items, |items|, dist);
    var (gs, open) := Walked(items, |items|, dist);
    assert items[..|items|] == items;
    Close(gs, open, items, dist);
  }

  /** The loop over the sorted colours. */
  method GroupItems(items: seq<Item>, dist: nat) returns (gs: seq<Group>)
    requires Ascending(items)
    ensures IsClustering(gs, items, dist)
  {
    gs := [];
    var group: seq<Item>, key := [], 0;
    var i := 0;
    while i < |items|
      invariant i <= |items|
      invariant i == 0 ==> group == [] && gs == []
      invariant i > 0 ==> (gs, Group(key, group)) == Walked(items, i, dist)
    {
      var p := items[i];
      if group != [] && p.0 - key > dist {
        gs := gs + [Group(key, group)];
        group := [];
      }
      if group == [] || p.0 - group[0].0 <= dist {
        key := p.0;
      }
      assert [] + [p] == [p];
      group := group + [p];
      i := i + 1;
    }
    if group != [] {
      WalkedIsClustering(items, dist);
      gs := gs + [Group(key, group)];
    }
  }

  /** The loop that fills the two dictionaries. */
  method Tabulate(gs: seq<Group>) returns (result: map<int, nat>, replacements: seq<(int, seq<int>)>)
    ensures result == Totals(gs) && replacements == Replacements(gs)
  {
    result, replacements := map[], [];
    for j := 0 to |gs|
      invariant result == Totals(gs[..j])
      invariant replacements == Replacements(gs[..j])
    {
      assert gs[..j + 1][..j] == gs[..j];
      result := result[gs[j].key := SumCounts(gs[j].members)];
      replacements := replacements + [(gs[j].key, Replaced(gs[j]))];
    }
    assert gs[..|gs|] == gs;
  }

  // ----- what a grouping means

  lemma FirstIsLeast(g: Group, dist: nat, k: nat)
    requires GoodGroup(g, dist) && k < |g.members|
    ensures g.members[0].0 <= g.members[k].0
    ensures g.members[0].0 <= g.key
  {
    if k > 0 { assert g.members[0].0 < g.members[k].0; }
    var j :| 0 <= j < |g.members| && g.members[j].0 == g.key;
    if j > 0 { assert g.members[0].0 < g.members[j].0; }
  }

  /** Everything in or under the key of an earlier group is out of reach of a later group. */
  lemma {:induction false} GroupsOrdered(gs: seq<Group>, dist: nat, i: nat, j: nat)
    requires forall k :: 0 <= k < |gs| ==> GoodGroup(gs[k], dist)
    requires Split(gs, dist)
    requires i < j < |gs|
    ensures gs[j].members != [] && gs[i].key + dist < gs[j].members[0].0
    decreases j
  {
    FirstIsLeast(gs[j - 1], dist, 0);
    assert gs[j - 1 + 1] == gs[j];
    assert gs[j - 1].key + dist < gs[j].members[0].0;
    if i < j - 1 {
      GroupsOrdered(gs, dist, i, j - 1);
    }
  }

  lemma {:induction false} InFlatten(gs: seq<Group>, p: Item)
    ensures p in Flatten(gs) <==> exists j :: 0 <= j < |gs| && p in gs[j].members
  {
    if gs == [] {
    } else {
      var rest := gs[..|gs| - 1];
      InFlatten(rest, p);
      if p in Flatten(rest) {
        var j :| 0 <= j < |rest| && p in rest[j].members;
        assert p in gs[j].members;
      }
      if exists j :: 0 <= j < |gs| && p in gs[j].members {
        var j :| 0 <= j < |gs| && p in gs[j].members;
        if j < |rest| { assert p in rest[j].members; }
      }
    }
  }

  predicate Has(g: Group, c: int) {
    c in Colours(g.members)
  }

  lemma HasIsMember(g: Group, c: int)
    ensures Has(g, c) <==> exists k :: 0 <= k < |g.members| && g.members[k].0 == c
  {
    if Has(g, c) {
      var p :| p in g.members && p.0 == c;
      var k :| 0 <= k < |g.members| && g.members[k] == p;
      assert g.members[k].0 == c;
    }
  }

  /** The groups partition the colours, and each colour is within `dist` of its key. */
  lemma GroupsPartition(gs: seq<Group>, items: seq<Item>, dist: nat, c: int)
    requires IsClustering(gs, items, dist)
    ensures c in Colours(items) <==> exists j :: 0 <= j < |gs| && Has(gs[j], c)
    ensures forall j :: 0 <= j < |gs| && Has(gs[j], c) ==> gs[j].key - dist <= c <= gs[j].key + dist
    ensures forall i, j :: 0 <= i < |gs| && 0 <= j < |gs| && Has(gs[i], c) && Has(gs[j], c) ==> i == j
  {
    if c in Colours(items) {
      var p :| p in items && p.0 == c;
      InFlatten(gs, p);
      var j :| 0 <= j < |gs| && p in gs[j].members;
      assert Has(gs[j], c);
    }
    if j :| 0 <= j < |gs| && Has(gs[j], c) {
      var p :| p in gs[j].members && p.0 == c;
      InFlatten(gs, p);
      assert c in Colours(items);
    }
    forall j | 0 <= j < |gs| && Has(gs[j], c)
      ensures gs[j].members[0].0 <= c
      ensures gs[j].key - dist <= c <= gs[j].key + dist
    {
      HasIsMember(gs[j], c);
      var k :| 0 <= k < |gs[j].members| && gs[j].members[k].0 == c;
      FirstIsLeast(gs[j], dist, k);
    }
    forall i, j | 0 <= i < j < |gs| && Has(gs[i], c)
      ensures !Has(gs[j], c)
    {
      GroupsOrdered(gs, dist, i, j);
    }
  }

  /** The key of the group a colour belongs to; other values stand for themselves. */
  function KeyOf(gs: seq<Group>, c: int): int {
    if gs == [] then c
    else if Has(gs[|gs| - 1], c) then gs[|gs| - 1].key
    else KeyOf(gs[..|gs| - 1], c)
  }

  lemma {:induction false} KeyOfIs(gs: seq<Group>, c: int, j: nat)
    requires j < |gs| && Has(gs[j], c)
    requires forall i :: 0 <= i < |gs| && Has(gs[i], c) ==> i == j
    ensures KeyOf(gs, c) == gs[j].key
    decreases |gs|
  {
    if j < |gs| - 1 {
      KeyOfIs(gs[..|gs| - 1], c, j);
    }
  }

  lemma KeyIsMember(gs: seq<Group>, items: seq<Item>, dist: nat, j: nat)
    requires IsClustering(gs, items, dist) && j < |gs|
    ensures Has(gs[j], gs[j].key) && gs[j].key in Colours(items)
    ensures KeyOf(gs, gs[j].key) == gs[j].key
  {
    HasIsMember(gs[j], gs[j].key);
    GroupsPartition(gs, items, dist, gs[j].key);
    KeyOfIs(gs, gs[j].key, j);
  }

  /** Distinct keys are more than `dist` apart. */
  lemma KeysAreApart(gs: seq<Group>, items: seq<Item>, dist: nat, i: nat, j: nat)
    requires IsClustering(gs, items, dist) && i < j < |gs|
    ensures gs[i].key + dist < gs[j].key
  {
    GroupsOrdered(gs, dist, i, j);
    FirstIsLeast(gs[j], dist, 0);
  }

  /** A replaced colour is an existing key, at most `dist` away, and stays put when looked up again. */
  lemma KeyOfMeaning(gs: seq<Group>, items: seq<Item>, dist: nat, c: int)
    requires IsClustering(gs, items, dist) && c in Colours(items)
    ensures c - dist <= KeyOf(gs, c) <= c + dist
    ensures KeyOf(gs, KeyOf(gs, c)) == KeyOf(gs, c)
    ensures exists j :: 0 <= j < |gs| && gs[j].key == KeyOf(gs, c)
    ensures KeyOf(gs, c) in Colours(items)
  {
    GroupsPartition(gs, items, dist, c);
    var j :| 0 <= j < |gs| && Has(gs[j], c);
    KeyOfIs(gs, c, j);
    KeyIsMember(gs, items, dist, j);
  }

  function SumTotals(gs: seq<Group>): nat {
    if gs == [] then 0 else SumTotals(gs[..|gs| - 1]) + SumCounts(gs[|gs| - 1].members)
  }

  lemma {:induction false} SumCountsConcat(a: seq<Item>, b: seq<Item>)
    ensures SumCounts(a + b) == SumCounts(a) + SumCounts(b)
    decreases |b|
  {
    if b == [] {
      assert a + b == a;
    } else {
      SumCountsConcat(a, b[..|b| - 1]);
      assert (a + b)[..|a + b| - 1] == a + b[..|b| - 1];
    }
  }

  /** Pixel counts are conserved by grouping. */
  lemma {:induction false} CountsConserved(gs: seq<Group>)
    ensures SumTotals(gs) == SumCounts(Flatten(gs))
  {
    if gs == [] {
    } else {
      CountsConserved(gs[..|gs| - 1]);
      SumCountsConcat(Flatten(gs[..|gs| - 1]), gs[|gs| - 1].members);
    }
  }

  lemma {:induction false} TotalsAt(gs: seq<Group>, j: nat)
    requires j < |gs| && forall i, k :: 0 <= i < k < |gs| ==> gs[i].key != gs[k].key
    ensures gs[j].key in Totals(gs) && Totals(gs)[gs[j].key] == SumCounts(gs[j].members)
    decreases |gs|
  {
    if j < |gs| - 1 {
      assert gs[j].key != gs[|gs| - 1].key;
      TotalsAt(gs[..|gs| - 1], j);
    }
  }

  /** The dictionary returned has one entry for each group, under its key, with all pixels of the group. */
  lemma TotalUnderKey(gs: seq<Group>, items: seq<Item>, dist: nat, j: nat)
    requires IsClustering(gs, items, dist) && j < |gs|
    ensures gs[j].key in Totals(gs) && Totals(gs)[gs[j].key] == SumCounts(gs[j].members)
  {
    forall i, k | 0 <= i < k < |gs| ensures gs[i].key != gs[k].key {
      KeysAreApart(gs, items, dist, i, k);
    }
    TotalsAt(gs, j);
  }

  lemma {:induction false} TotalsHaveKeys(gs: seq<Group>, key: int)
    ensures key in Totals(gs) <==> exists j :: 0 <= j < |gs| && gs[j].key == key
  {
    if gs != [] {
      var rest := gs[..|gs| - 1];
      TotalsHaveKeys(rest, key);
      if key in Totals(rest) {
        var j :| 0 <= j < |rest| && rest[j].key == key;
        assert gs[j].key == key;
      } else if exists j :: 0 <= j < |gs| && gs[j].key == key {
        var j :| 0 <= j < |gs| && gs[j].key == key;
        assert j < |rest| ==> rest[j].key == key;
      }
    }
  }

  lemma {:induction false} OneTotalPerKey(gs: seq<Group>)
    requires forall i, k :: 0 <= i < k < |gs| ==> gs[i].key != gs[k].key
    ensures |Totals(gs)| == |gs|
  {
    if gs != [] {
      var rest, key := gs[..|gs| - 1], gs[|gs| - 1].key;
      OneTotalPerKey(rest);
      TotalsHaveKeys(rest, key);
      assert key !in Totals(rest);
      assert Totals(gs).Keys == Totals(rest).Keys + {key};
    }
  }

  lemma OneTotalPerGroup(gs: seq<Group>, items: seq<Item>, dist: nat)
    requires IsClustering(gs, items, dist)
    ensures |Totals(gs)| == |gs|
  {
    forall i, k | 0 <= i < k < |gs| ensures gs[i].key != gs[k].key {
      KeysAreApart(gs, items, dist, i, k);
    }
    OneTotalPerKey(gs);
  }

  // ----- optimality

  predicate Reached(c: int, palette: set<int>, dist: nat) {
    exists p :: p in palette && c - dist <= p <= c + dist
  }

  predicate Covers(palette: set<int>, colours: set<int>, dist: nat) {
    forall c {:trigger Reached(c, palette, dist)} :: c in colours ==> Reached(c, palette, dist)
  }

  /** A colour of the image that reaches the smallest colour of a group is at most that group's key. */
  lemma CoverIsBelowKey(gs: seq<Group>, items: seq<Item>, dist: nat, i: nat, p: int)
    requires IsClustering(gs, items, dist) && i < |gs|
    requires p in Colours(items) && p <= gs[i].members[0].0 + dist
    ensures p <= gs[i].key
  {
    GroupsPartition(gs, items, dist, p);
    var j :| 0 <= j < |gs| && Has(gs[j], p);
    HasIsMember(gs[j], p);
    var k :| 0 <= k < |gs[j].members| && gs[j].members[k].0 == p;
    FirstIsLeast(gs[j], dist, k);
    FirstIsLeast(gs[i], dist, 0);
    if j < i {
      GroupsOrdered(gs, dist, j, i);
    } else if i < j {
      GroupsOrdered(gs, dist, i, j);
    }
  }

  /** A palette colour that serves the smallest colour of group `i`. */
  lemma CoverOf(gs: seq<Group>, items: seq<Item>, dist: nat, palette: set<int>, i: nat) returns (p: int)
    requires IsClustering(gs, items, dist) && i < |gs|
    requires palette <= Colours(items) && Covers(palette, Colours(items), dist)
    ensures p in palette && gs[i].members[0].0 - dist <= p <= gs[i].key
  {
    var first := gs[i].members[0].0;
    assert Has(gs[i], first) by { HasIsMember(gs[i], first); }
    GroupsPartition(gs, items, dist, first);
    assert Reached(first, palette, dist);
    p :| p in palette && first - dist <= p <= first + dist;
    CoverIsBelowKey(gs, items, dist, i, p);
  }

  lemma {:induction false} DistinctCovers(gs: seq<Group>, items: seq<Item>, dist: nat, palette: set<int>, n: nat)
    returns (s: set<int>)
    requires IsClustering(gs, items, dist) && n <= |gs|
    requires palette <= Colours(items) && Covers(palette, Colours(items), dist)
    ensures s <= palette && |s| == n
    ensures n > 0 ==> forall p :: p in s ==> p <= gs[n - 1].key
  {
    if n == 0 {
      s := {};
    } else {
      var s' := DistinctCovers(gs, items, dist, palette, n - 1);
      var p := CoverOf(gs, items, dist, palette, n - 1);
      if n > 1 {
        GroupsOrdered(gs, dist, n - 2, n - 1);
        KeysAreApart(gs, items, dist, n - 2, n - 1);
      }
      assert p !in s';
      s := s' + {p};
    }
  }

  lemma {:induction false} SubsetIsSmaller(a: set<int>, b: set<int>)
    requires a <= b
    ensures |a| <= |b|
  {
    assert b == a + (b - a);
    assert |b| == |a| + |b - a|;
  }

  /** The greedy palette is as small as any palette of the image's own colours that covers them. */
  lemma GreedyIsOptimal(gs: seq<Group>, items: seq<Item>, dist: nat, palette: set<int>)
    requires IsClustering(gs, items, dist)
    requires palette <= Colours(items) && Covers(palette, Colours(items), dist)
    ensures |gs| <= |palette|
  {
    var s := DistinctCovers(gs, items, dist, palette, |gs|);
    SubsetIsSmaller(s, palette);
  }

  /** The two dictionaries stand for a grouping of the sorted colours. */
  predicate Describes(channels: map<int, nat>, dist: nat, groups: seq<Group>,
                      result: map<int, nat>, replacements: seq<(int, seq<int>)>) {
    && IsClustering(groups, SortedItems(channels), dist)
    && result == Totals(groups) && replacements == Replacements(groups)
  }

  lemma ColoursAreKeys(channels: map<int, nat>)
    ensures Colours(SortedItems(channels)) == channels.Keys
  {
    var items := SortedItems(channels);
    forall c | c in channels ensures c in Colours(items) {
      SortedItemsHold(channels, (c, channels[c]));
    }
    forall c | c in Colours(items) ensures c in channels {
      var p :| p in items && p.0 == c;
      SortedItemsHold(channels, p);
    }
  }

  /** The dictionary of counts has no more entries than any such palette. */
  lemma DictionaryIsSmallest(channels: map<int, nat>, dist: nat, groups: seq<Group>, result: map<int, nat>,
                             replacements: seq<(int, seq<int>)>, palette: set<int>)
    requires Describes(channels, dist, groups, result, replacements)
    requires palette <= channels.Keys && Covers(palette, channels.Keys, dist)
    ensures |result| <= |palette|
  {
    ColoursAreKeys(channels);
    OneTotalPerGroup(groups, SortedItems(channels), dist);
    GreedyIsOptimal(groups, SortedItems(channels), dist, palette);
  }

  /** The dictionaries describe a grouping, and no palette of the given colours that covers them all within the
      distance is smaller than the dictionary of counts. */
  method CombineChannelsCore(channels: map<int, nat>, dist: nat)
    returns (result: map<int, nat>, replacements: seq<(int, seq<int>)>)
    ensures exists groups :: Describes(channels, dist, groups, result, replacements)
    ensures forall palette :: palette <= channels.Keys && Covers(palette, channels.Keys, dist) ==> |result| <= |palette|
  {
    SortedItemsAscend(channels);
    var gs := GroupItems(SortedItems(channels), dist);
    result, replacements := Tabulate(gs);
    assert Describes(channels, dist, gs, result, replacements);
    forall palette | palette <= channels.Keys && Covers(palette, channels.Keys, dist)
      ensures |result| <= |palette|
    {
      DictionaryIsSmallest(channels, dist, gs, result, replacements, palette);
    }
  }

  /** And its own keys are such a palette. */
  lemma KeysCover(gs: seq<Group>, items: seq<Item>, dist: nat)
    requires IsClustering(gs, items, dist)
    ensures var keys := set g | g in gs :: g.key;
            keys <= Colours(items) && Covers(keys, Colours(items), dist)
  {
    var keys := set g | g in gs :: g.key;
    forall c | c in keys ensures c in Colours(items) {
      var g :| g in gs && g.key == c;
      var j :| 0 <= j < |gs| && gs[j] == g;
      KeyIsMember(gs, items, dist, j);
    }
    forall c | c in Colours(items)
      ensures Reached(c, keys, dist)
    {
      KeyOfMeaning(gs, items, dist, c);
      var j :| 0 <= j < |gs| && gs[j].key == KeyOf(gs, c);
      assert gs[j] in gs && gs[j].key in keys;
    }
  }

  /** The restriction to the image's own colours matters: a foreign colour can cover two groups. */
  lemma ForeignColourBeatsGreedy()
    ensures var items := [(0, 1), (2, 1)]; var gs := [Group(0, [(0, 1)]), Group(2, [(2, 1)])];
            && IsClustering(gs, items, 1)
            && Covers({1}, Colours(items), 1) && |gs| > |{1}|
  {
    var items: seq<Item> := [(0, 1), (2, 1)];
    var a, b := Group(0, [(0, 1)]), Group(2, [(2, 1)]);
    assert Flatten([a]) == Flatten([]) + a.members by { assert [a][..0] == []; }
    assert [a, b][..1] == [a];
    assert Flatten([a, b]) == items;
    assert a.members[0].0 == a.key && b.members[0].0 == b.key;
    assert 1 in {1};
  }

  // ----- replacing the pixels

  /** The dictionary the counting loop builds. */
  ghost predicate IsCount(counts: map<int, nat>, lst: seq<int>) {
    && (forall c :: c in counts <==> c in lst)
    && forall c :: c in counts ==> counts[c] == multiset(lst)[c]
  }

  method CountColours(lst: array<int>) returns (counts: map<int, nat>)
    ensures IsCount(counts, lst[..])
  {
    counts := map[];
    for i := 0 to lst.Length
      invariant IsCount(counts, lst[..i])
    {
      var el := lst[i];
      assert lst[..i + 1] == lst[..i] + [el];
      counts := counts[el := (if el in counts then counts[el] else 0) + 1];
    }
    assert lst[..lst.Length] == lst[..];
  }

  lemma ColoursOfCounts(counts: map<int, nat>, lst: seq<int>)
    requires IsCount(counts, lst)
    ensures forall c :: c in Colours(SortedItems(counts)) <==> c in lst
  {
    ColoursAreKeys(counts);
  }

  /** What the inner loop over the replacement dictionary leaves for a pixel. */
  lemma {:induction false} ScanMeansKeyOf(gs: seq<Group>, c: int, n: nat)
    requires n < |gs|
    ensures KeyOf(gs[..n + 1], c) == if Has(gs[n], c) then gs[n].key else KeyOf(gs[..n], c)
  {
    assert gs[..n + 1][..n] == gs[..n];
  }

  method CombineChannels(lst: array<int>, maxDist: nat)
    returns (ghost counts: map<int, nat>, ghost groups: seq<Group>)
    modifies lst
    ensures IsCount(counts, old(lst[..]))
    ensures IsClustering(groups, SortedItems(counts), maxDist)
    ensures forall i :: 0 <= i < lst.Length ==> lst[i] == KeyOf(groups, old(lst[i]))
  {
    var table := CountColours(lst);
    var totals, replacements := CombineChannelsCore(table, maxDist);
    ghost var gs :| Describes(table, maxDist, gs, totals, replacements);
    counts, groups := table, gs;
    for i := 0 to lst.Length
      invariant forall j :: 0 <= j < i ==> lst[j] == KeyOf(gs, old(lst[j]))
      invariant forall j :: i <= j < lst.Length ==> lst[j] == old(lst[j])
    {
      ReplacePixel(lst, i, replacements, gs, SortedItems(table), maxDist);
    }
  }

  /** The loop over the replacement dictionary, for one pixel. */
  method ReplacePixel(lst: array<int>, i: nat, replacements: seq<(int, seq<int>)>,
                      ghost gs: seq<Group>, ghost items: seq<Item>, ghost dist: nat)
    requires i < lst.Length && replacements == Replacements(gs) && IsClustering(gs, items, dist)
    modifies lst
    ensures lst[i] == KeyOf(gs, old(lst[i]))
    ensures forall j :: 0 <= j < lst.Length && j != i ==> lst[j] == old(lst[j])
  {
    var el := lst[i];
    for n := 0 to |replacements|
      invariant lst[i] == KeyOf(gs[..n], el)
      invariant forall j :: 0 <= j < lst.Length && j != i ==> lst[j] == old(lst[j])
    {
      ScanMeansKeyOf(gs, el, n);
      if el == gs[n].key {
        OnlyOwnKey(gs, items, dist, n);
      }
      if el in replacements[n].1 {
        lst[i] := replacements[n].0;
      }
    }
    assert gs[..|gs|] == gs;
  }

  /** Before its own group is reached, a key has not been replaced by anything. */
  lemma OnlyOwnKey(gs: seq<Group>, items: seq<Item>, dist: nat, n: nat)
    requires IsClustering(gs, items, dist) && n < |gs|
    ensures KeyOf(gs[..n], gs[n].key) == gs[n].key
  {
    KeyIsMember(gs, items, dist, n);
    GroupsPartition(gs, items, dist, gs[n].key);
    NoGroupNoChange(gs[..n], gs[n].key);
  }

  lemma {:induction false} NoGroupNoChange(gs: seq<Group>, c: int)
    requires forall j :: 0 <= j < |gs| ==> !Has(gs[j], c)
    ensures KeyOf(gs, c) == c
    decreases |gs|
  {
    if gs != [] {
      NoGroupNoChange(gs[..|gs| - 1], c);
    }
  }

  /** A list whose distinct values are more than `dist` apart is left alone by any grouping of it. */
  lemma ApartMeansUnchanged(lst: seq<int>, counts: map<int, nat>, gs: seq<Group>, dist: nat, c: int)
    requires IsCount(counts, lst) && IsClustering(gs, SortedItems(counts), dist)
    requires Apart(lst, dist)
    requires c in lst
    ensures KeyOf(gs, c) == c
  {
    ColoursOfCounts(counts, lst);
    KeyOfMeaning(gs, SortedItems(counts), dist, c);
  }

  /** One call of the replacement, as the contract of the method describes it. */
  ghost predicate Combined(lst: seq<int>, lst': seq<int>, dist: nat) {
    exists counts: map<int, nat>, gs: seq<Group> :: CombinedBy(lst, lst', dist, counts, gs)
  }

  ghost predicate CombinedBy(lst: seq<int>, lst': seq<int>, dist: nat, counts: map<int, nat>, gs: seq<Group>) {
    && IsCount(counts, lst) && IsClustering(gs, SortedItems(counts), dist)
    && |lst'| == |lst| && forall i :: 0 <= i < |lst| ==> lst'[i] == KeyOf(gs, lst[i])
  }

  lemma CombinedPixel(lst: seq<int>, lst': seq<int>, dist: nat, counts: map<int, nat>, gs: seq<Group>, i: nat)
    returns (j: nat)
    requires CombinedBy(lst, lst', dist, counts, gs) && i < |lst|
    ensures lst[i] - dist <= lst'[i] <= lst[i] + dist && lst'[i] in lst
    ensures j < |gs| && gs[j].key == lst'[i]
  {
    ColoursOfCounts(counts, lst);
    KeyOfMeaning(gs, SortedItems(counts), dist, lst[i]);
    j :| 0 <= j < |gs| && gs[j].key == KeyOf(gs, lst[i]);
  }

  lemma CombinedPair(lst: seq<int>, lst': seq<int>, dist: nat, counts: map<int, nat>, gs: seq<Group>,
                     i: nat, k: nat)
    requires CombinedBy(lst, lst', dist, counts, gs) && i < |lst| && k < |lst|
    requires lst'[i] < lst'[k]
    ensures lst'[i] + dist < lst'[k]
  {
    var a := CombinedPixel(lst, lst', dist, counts, gs, i);
    var b := CombinedPixel(lst, lst', dist, counts, gs, k);
    KeyPair(gs, SortedItems(counts), dist, a, b);
  }

  lemma KeyPair(gs: seq<Group>, items: seq<Item>, dist: nat, a: nat, b: nat)
    requires IsClustering(gs, items, dist) && a < |gs| && b < |gs| && gs[a].key < gs[b].key
    ensures gs[a].key + dist < gs[b].key
  {
    if b < a {
      KeysAreApart(gs, items, dist, b, a);
    } else {
      KeysAreApart(gs, items, dist, a, b);
    }
  }

  /** Two values of the list either agree or are more than `dist` apart. */
  predicate Apart(lst: seq<int>, dist: nat) {
    forall i, k :: 0 <= i < |lst| && 0 <= k < |lst| && lst[i] < lst[k] ==> lst[i] + dist < lst[k]
  }

  /** Pixels move by at most `dist`, onto colours of the image. */
  lemma CombinedMoves(lst: seq<int>, lst': seq<int>, dist: nat)
    requires Combined(lst, lst', dist)
    ensures |lst'| == |lst|
    ensures forall i :: 0 <= i < |lst| ==> lst[i] - dist <= lst'[i] <= lst[i] + dist && lst'[i] in lst
  {
    var counts: map<int, nat>, gs: seq<Group> :| CombinedBy(lst, lst', dist, counts, gs);
    forall i | 0 <= i < |lst|
      ensures lst[i] - dist <= lst'[i] <= lst[i] + dist && lst'[i] in lst
    {
      var _ := CombinedPixel(lst, lst', dist, counts, gs, i);
    }
  }

  function Palette(lst: seq<int>): set<int> {
    set c | c in lst
  }

  lemma LeftColoursAreKeys(lst: seq<int>, lst': seq<int>, dist: nat, counts: map<int, nat>, gs: seq<Group>)
    requires CombinedBy(lst, lst', dist, counts, gs)
    ensures Palette(lst') <= Totals(gs).Keys
  {
    forall c | c in Palette(lst') ensures c in Totals(gs) {
      var i :| 0 <= i < |lst'| && lst'[i] == c;
      var j := CombinedPixel(lst, lst', dist, counts, gs, i);
      TotalsHaveKeys(gs, c);
    }
  }

  lemma CountedPalette(counts: map<int, nat>, lst: seq<int>)
    requires IsCount(counts, lst)
    ensures counts.Keys == Palette(lst)
  {
    assert forall c :: c in counts.Keys <==> c in Palette(lst);
  }

  lemma LeftPaletteIsSmallest(lst: seq<int>, lst': seq<int>, dist: nat, counts: map<int, nat>, gs: seq<Group>,
                              palette: set<int>)
    requires CombinedBy(lst, lst', dist, counts, gs)
    requires palette <= Palette(lst) && Covers(palette, Palette(lst), dist)
    ensures |Palette(lst')| <= |palette|
  {
    ColoursAreKeys(counts);
    CountedPalette(counts, lst);
    GreedyIsOptimal(gs, SortedItems(counts), dist, palette);
    LeftColoursAreKeys(lst, lst', dist, counts, gs);
    SubsetIsSmaller(Palette(lst'), Totals(gs).Keys);
    OneTotalPerGroup(gs, SortedItems(counts), dist);
  }

  lemma LeftPaletteCovers(lst: seq<int>, lst': seq<int>, dist: nat)
    requires |lst'| == |lst|
    requires forall i :: 0 <= i < |lst| ==> lst[i] - dist <= lst'[i] <= lst[i] + dist && lst'[i] in lst
    ensures Palette(lst') <= Palette(lst) && Covers(Palette(lst'), Palette(lst), dist)
  {
    forall c | c in Palette(lst) ensures Reached(c, Palette(lst'), dist) {
      var i :| 0 <= i < |lst| && lst[i] == c;
      assert lst'[i] in Palette(lst');
    }
  }

  /** No palette of the image's own colours that covers them all within the distance is smaller than the
      palette of the image that is left, which is such a palette itself. */
  lemma CombinedIsSmallest(lst: seq<int>, lst': seq<int>, dist: nat, palette: set<int>)
    requires Combined(lst, lst', dist)
    requires palette <= Palette(lst) && Covers(palette, Palette(lst), dist)
    ensures |Palette(lst')| <= |palette|
    ensures Palette(lst') <= Palette(lst) && Covers(Palette(lst'), Palette(lst), dist)
  {
    CombinedMoves(lst, lst', dist);
    LeftPaletteCovers(lst, lst', dist);
    var counts: map<int, nat>, gs: seq<Group> :| CombinedBy(lst, lst', dist, counts, gs);
    LeftPaletteIsSmallest(lst, lst', dist, counts, gs, palette);
  }

  /** The colours left are more than `dist` apart. */
  lemma CombinedIsApart(lst: seq<int>, lst': seq<int>, dist: nat)
    requires Combined(lst, lst', dist)
    ensures |lst'| == |lst| && Apart(lst', dist)
  {
    var counts: map<int, nat>, gs: seq<Group> :| CombinedBy(lst, lst', dist, counts, gs);
    forall i, k | 0 <= i < |lst'| && 0 <= k < |lst'| && lst'[i] < lst'[k]
      ensures lst'[i] + dist < lst'[k]
    {
      CombinedPair(lst, lst', dist, counts, gs, i, k);
    }
  }

  /** Running the replacement again changes nothing. */
  lemma CombiningTwiceIsOnce(lst: seq<int>, lst': seq<int>, lst'': seq<int>, dist: nat)
    requires Combined(lst, lst', dist) && Combined(lst', lst'', dist)
    ensures lst'' == lst'
  {
    CombinedIsApart(lst, lst', dist);
    var counts: map<int, nat>, gs: seq<Group> :| CombinedBy(lst', lst'', dist, counts, gs);
    forall i | 0 <= i < |lst'| ensures lst''[i] == lst'[i] {
      ApartMeansUnchanged(lst', counts, gs, dist, lst'[i]);
    }
  }

  // ----- what the totals count

  /** How many pixels have one of these colours. */
  function Pixels(lst: seq<int>, items: seq<Item>): nat {
    if lst == [] then 0
    else Pixels(lst[..|lst| - 1], items) + if lst[|lst| - 1] in Colours(items) then 1 else 0
  }

  /** The counts of the items are those of the list. */
  predicate CountsOf(items: seq<Item>, lst: seq<int>) {
    && (forall i, j :: 0 <= i < j < |items| ==> items[i].0 != items[j].0)
    && forall i :: 0 <= i < |items| ==> items[i].1 == multiset(lst)[items[i].0]
  }

  lemma {:induction false} PixelsOfOneMore(lst: seq<int>, items: seq<Item>, p: Item)
    requires p.0 !in Colours(items)
    ensures Pixels(lst, items + [p]) == Pixels(lst, items) + multiset(lst)[p.0]
  {
    if lst != [] {
      var before, last := lst[..|lst| - 1], lst[|lst| - 1];
      assert lst == before + [last];
      PixelsOfOneMore(before, items, p);
      assert Colours(items + [p]) == Colours(items) + {p.0};
    }
  }

  lemma {:induction false} PixelsOfNone(lst: seq<int>)
    ensures Pixels(lst, []) == 0
  {
    if lst != [] {
      PixelsOfNone(lst[..|lst| - 1]);
    }
  }

  lemma {:induction false} SumCountsPixels(items: seq<Item>, lst: seq<int>)
    requires CountsOf(items, lst)
    ensures SumCounts(items) == Pixels(lst, items)
  {
    if items == [] {
      PixelsOfNone(lst);
    } else {
      var rest, p := items[..|items| - 1], items[|items| - 1];
      assert items == rest + [p];
      SumCountsPixels(rest, lst);
      PixelsOfOneMore(lst, rest, p);
    }
  }

  lemma {:induction false} PixelsOfAll(lst: seq<int>, items: seq<Item>)
    requires forall c :: c in lst ==> c in Colours(items)
    ensures Pixels(lst, items) == |lst|
  {
    if lst != [] {
      var before, last := lst[..|lst| - 1], lst[|lst| - 1];
      PixelsOfAll(before, items);
      assert last in lst;
      assert Pixels(lst, items) == Pixels(before, items) + 1;
    }
  }

  lemma ItemsCount(counts: map<int, nat>, lst: seq<int>)
    requires IsCount(counts, lst)
    ensures CountsOf(SortedItems(counts), lst)
  {
    SortedItemsAscend(counts);
    var items := SortedItems(counts);
    forall i | 0 <= i < |items| ensures items[i].1 == multiset(lst)[items[i].0] {
      SortedItemsHold(counts, items[i]);
    }
  }

  /** A pixel of the reduced image has a group's key exactly if the original pixel is in the group. */
  lemma {:induction false} KeyPixels(lst: seq<int>, lst': seq<int>, gs: seq<Group>, items: seq<Item>, dist: nat, j: nat)
    requires IsClustering(gs, items, dist) && j < |gs| && |lst'| == |lst|
    requires forall i :: 0 <= i < |lst| ==> lst[i] in Colours(items) && lst'[i] == KeyOf(gs, lst[i])
    ensures multiset(lst')[gs[j].key] == Pixels(lst, gs[j].members)
    decreases |lst|
  {
    if lst != [] {
      var n := |lst| - 1;
      assert lst' == lst'[..n] + [lst'[n]];
      KeyPixels(lst[..n], lst'[..n], gs, items, dist, j);
      OwnGroupOnly(gs, items, dist, lst[n], j);
    }
  }

  lemma OwnGroupOnly(gs: seq<Group>, items: seq<Item>, dist: nat, c: int, j: nat)
    requires IsClustering(gs, items, dist) && j < |gs| && c in Colours(items)
    ensures KeyOf(gs, c) == gs[j].key <==> c in Colours(gs[j].members)
  {
    GroupsPartition(gs, items, dist, c);
    var i :| 0 <= i < |gs| && Has(gs[i], c);
    KeyOfIs(gs, c, i);
    if i < j {
      KeysAreApart(gs, items, dist, i, j);
    } else if j < i {
      KeysAreApart(gs, items, dist, j, i);
    }
  }

  lemma GroupCounts(gs: seq<Group>, items: seq<Item>, dist: nat, lst: seq<int>, j: nat)
    requires IsClustering(gs, items, dist) && CountsOf(items, lst) && j < |gs|
    ensures CountsOf(gs[j].members, lst)
  {
    var ms := gs[j].members;
    forall i | 0 <= i < |ms| ensures ms[i].1 == multiset(lst)[ms[i].0] {
      InFlatten(gs, ms[i]);
      assert ms[i] in items;
    }
  }

  /** The dictionary of totals counts the pixels of the reduced image, colour by colour; and all its counts
      add up to the number of pixels. */
  lemma TotalsCountPixels(lst: seq<int>, lst': seq<int>, dist: nat, counts: map<int, nat>, gs: seq<Group>)
    requires CombinedBy(lst, lst', dist, counts, gs)
    ensures forall j :: 0 <= j < |gs| ==>
              gs[j].key in Totals(gs) && Totals(gs)[gs[j].key] == multiset(lst')[gs[j].key]
    ensures SumTotals(gs) == |lst|
  {
    var items := SortedItems(counts);
    ItemsCount(counts, lst);
    ColoursOfCounts(counts, lst);
    forall j | 0 <= j < |gs|
      ensures gs[j].key in Totals(gs) && Totals(gs)[gs[j].key] == multiset(lst')[gs[j].key]
    {
      TotalUnderKey(gs, items, dist, j);
      GroupCounts(gs, items, dist, lst, j);
      SumCountsPixels(gs[j].members, lst);
      KeyPixels(lst, lst', gs, items, dist, j);
    }
    CountsConserved(gs);
    SumCountsPixels(items, lst);
    PixelsOfAll(lst, items);
  }
}
