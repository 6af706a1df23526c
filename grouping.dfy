/**
 * The grouping engine: spools of the same brand, material, colour and diameter are
 * collected into one group (in the order their keys are first seen), each group's
 * members are sorted by remaining percent, and the groups are sorted so that those
 * holding an ACTIVE spool come first, then by average remaining percent.
 */
module Grouping {
  import opened Wrappers
  import opened Text
  import opened Filament
  import opened Sorting

  const NoBrand: string := "(no brand)"

  /** `brandLabelOf`: the trimmed brand, or "(no brand)" when it is missing or blank. */
  function BrandLabelOf(s: Spool): (r: string)
    ensures r != []
    ensures Trim(s.brand.GetOr("")) != [] ==> r == Trim(s.brand.GetOr(""))
    ensures Trim(s.brand.GetOr("")) == [] ==> r == NoBrand
  {
    var b := Trim(s.brand.GetOr(""));
    if |b| > 0 then b else NoBrand
  }

  /**
   * The group key. The code joins the four parts with "||"; the join is injective
   * here because the colour part has no upper-case letters while every material name
   * has, so the tuple identifies the same groups.
   */
  datatype GroupKey = GroupKey(brandLabel: string, material: Material, color: string, diameterMm: Diameter)

  function KeyOf(s: Spool): GroupKey {
    GroupKey(BrandLabelOf(s), s.material, Lower(Trim(s.color)), s.diameterMm)
  }

  datatype SpoolGroup = SpoolGroup(
    key: GroupKey,
    brandLabel: string,
    material: Material,
    color: string,
    diameterMm: Diameter,
    spools: seq<Spool>,
    count: nat,
    totalRemainingG: real,
    avgRemainingPct: real)

  function Grams(s: Spool): real { s.remainingG }

  function Pct(s: Spool): real { s.remainingPct }

  function Count(g: SpoolGroup): real { g.count as real }

  /** The mean remaining percent of a non-empty list of spools (the `reduce` divided by the length). */
  function MeanPct(sp: seq<Spool>): real
    requires sp != []
  {
    SumOf(sp, Pct) / (|sp| as real)
  }

  /** The record created for the first spool of a key. */
  function NewGroup(k: GroupKey, s: Spool): SpoolGroup {
    SpoolGroup(k, k.brandLabel, s.material, s.color, s.diameterMm, [s], 1, s.remainingG, s.remainingPct)
  }

  /** The in-place update of an existing record: push, increment, add, recompute the mean. */
  function AddMember(g: SpoolGroup, s: Spool): SpoolGroup {
    var sp := g.spools + [s];
    g.(spools := sp, count := g.count + 1, totalRemainingG := g.totalRemainingG + s.remainingG,
       avgRemainingPct := MeanPct(sp))
  }

  /** The position of the record for `k` in insertion order, or -1. */
  function FindKey(gs: seq<SpoolGroup>, k: GroupKey): (r: int)
    ensures -1 <= r < |gs|
    ensures r == -1 <==> forall j :: 0 <= j < |gs| ==> gs[j].key != k
    ensures r >= 0 ==> gs[r].key == k && forall j :: 0 <= j < r ==> gs[j].key != k
  {
    if gs == [] then -1
    else if gs[0].key == k then 0
    else
      var p := FindKey(gs[1..], k);
      if p == -1 then -1 else p + 1
  }

  /** One pass of the loop body, over the map's values in insertion order, for a key function `key`. */
  function Step(gs: seq<SpoolGroup>, s: Spool, key: Spool -> GroupKey): seq<SpoolGroup> {
    var k := key(s);
    var p := FindKey(gs, k);
    if p == -1 then gs + [NewGroup(k, s)] else gs[p := AddMember(gs[p], s)]
  }

  /** The map's values, in insertion order, after the loop has seen `ss`. */
  function Accumulated(ss: seq<Spool>, key: Spool -> GroupKey): seq<SpoolGroup> {
    if ss == [] then [] else Step(Accumulated(ss[..|ss| - 1], key), ss[|ss| - 1], key)
  }

  function MemberKey(s: Spool): Key { (0, s.remainingPct) }

  function WithSortedMembers(g: SpoolGroup): SpoolGroup {
    g.(spools := SortBy(g.spools, MemberKey))
  }

  /** `groupRank`: 0 when some member is ACTIVE, else 1. */
  function Rank(g: SpoolGroup): int {
    if exists i | 0 <= i < |g.spools| :: g.spools[i].status == Active then 0 else 1
  }

  function GroupOrderKey(g: SpoolGroup): Key { (Rank(g), g.avgRemainingPct) }

  function SortedMembersAll(gs: seq<SpoolGroup>): (r: seq<SpoolGroup>)
    ensures |r| == |gs| && forall j :: 0 <= j < |gs| ==> r[j] == WithSortedMembers(gs[j])
  {
    seq(|gs|, j requires 0 <= j < |gs| => WithSortedMembers(gs[j]))
  }

  /** What `groupSpools` returns. */
  function Grouped(ss: seq<Spool>): seq<SpoolGroup> {
    SortBy(SortedMembersAll(Accumulated(ss, KeyOf)), GroupOrderKey)
  }

  /** `groupSpools`: the loop fills an insertion-ordered map; then the members and the groups are sorted. */
  method GroupSpools(ss: seq<Spool>) returns (groups: seq<SpoolGroup>)
    ensures groups == Grouped(ss)
  {
    var order: seq<GroupKey> := [];
    var m: map<GroupKey, SpoolGroup> := map[];
    var i := 0;
    while i < |ss|
      invariant 0 <= i <= |ss|
      invariant Mirrors(order, m, Accumulated(ss[..i], KeyOf))
    {
      var s := ss[i];
      var brandLabel := BrandLabelOf(s);
      var key := GroupKey(brandLabel, s.material, Lower(Trim(s.color)), s.diameterMm);
      assert ss[..i + 1] == ss[..i] + [s];
      AccumulatedSnoc(ss[..i], s, KeyOf);
      assert key == KeyOf(s);
      if key !in m {
        MirrorsNew(order, m, Accumulated(ss[..i], KeyOf), s, KeyOf);
        m := m[key := NewGroup(key, s)];
        order := order + [key];
      } else {
        MirrorsExisting(order, m, Accumulated(ss[..i], KeyOf), s, KeyOf);
        var existing := m[key];
        m := m[key := AddMember(existing, s)];
      }
      i := i + 1;
    }
    assert ss[..i] == ss;
    MirrorsValues(order, m, Accumulated(ss, KeyOf));
    var values := seq(|order|, j requires 0 <= j < |order| => m[order[j]]);
    groups := SortBy(SortedMembersAll(values), GroupOrderKey);
  }

  /** A JavaScript `Map` from keys to records, in insertion order `order`, holding exactly the records `gs`. */
  ghost predicate Mirrors(order: seq<GroupKey>, m: map<GroupKey, SpoolGroup>, gs: seq<SpoolGroup>) {
    && |order| == |gs|
    && (forall k :: k in m <==> k in order)
    && (forall a, b :: 0 <= a < b < |order| ==> order[a] != order[b])
    && (forall j :: 0 <= j < |order| ==> order[j] in m && m[order[j]] == gs[j] && gs[j].key == order[j])
  }

  lemma AccumulatedSnoc(ss: seq<Spool>, s: Spool, key: Spool -> GroupKey)
    ensures Accumulated(ss + [s], key) == Step(Accumulated(ss, key), s, key)
  {
    assert (ss + [s])[..|ss|] == ss;
  }

  /** A key not in the map: the record is appended, as in `Step`. */
  lemma MirrorsNew(order: seq<GroupKey>, m: map<GroupKey, SpoolGroup>, gs: seq<SpoolGroup>, s: Spool,
                   key: Spool -> GroupKey)
    requires Mirrors(order, m, gs) && key(s) !in m
    ensures Mirrors(order + [key(s)], m[key(s) := NewGroup(key(s), s)], Step(gs, s, key))
  {
    var k := key(s);
    assert forall j :: 0 <= j < |gs| ==> gs[j].key != k;
    assert FindKey(gs, k) == -1;
    var v := NewGroup(k, s);
    assert Step(gs, s, key) == gs + [v];
    MirrorsAppend(order, m, gs, k, v);
  }

  /** Appending a record under a new key keeps the mirror. */
  lemma MirrorsAppend(order: seq<GroupKey>, m: map<GroupKey, SpoolGroup>, gs: seq<SpoolGroup>, k: GroupKey, v: SpoolGroup)
    requires Mirrors(order, m, gs) && k !in m && v.key == k
    ensures Mirrors(order + [k], m[k := v], gs + [v])
  {
    var order' := order + [k];
    var gs' := gs + [v];
    assert forall j :: 0 <= j < |order| ==> order'[j] == order[j] && gs'[j] == gs[j];
  }

  /** A key in the map: its record is updated in place, as in `Step`. */
  lemma MirrorsExisting(order: seq<GroupKey>, m: map<GroupKey, SpoolGroup>, gs: seq<SpoolGroup>, s: Spool,
                        key: Spool -> GroupKey)
    requires Mirrors(order, m, gs) && key(s) in m
    ensures Mirrors(order, m[key(s) := AddMember(m[key(s)], s)], Step(gs, s, key))
  {
    var k := key(s);
    var p :| 0 <= p < |order| && order[p] == k;
    var r := FindKey(gs, k);
    assert gs[p].key == k;
    assert r != -1;
    assert order[r] == k;
    assert r == p;
    assert m[k] == gs[p];
    var v := AddMember(gs[p], s);
    assert v.key == k;
    assert Step(gs, s, key) == gs[p := v];
    MirrorsUpdate(order, m, gs, p, v);
  }

  /** Replacing the record at one position, under the same key, keeps the mirror. */
  lemma MirrorsUpdate(order: seq<GroupKey>, m: map<GroupKey, SpoolGroup>, gs: seq<SpoolGroup>, p: nat, v: SpoolGroup)
    requires Mirrors(order, m, gs) && p < |order| && v.key == order[p]
    ensures Mirrors(order, m[order[p] := v], gs[p := v])
  {
    var m' := m[order[p] := v];
    var gs' := gs[p := v];
    forall j | 0 <= j < |order|
      ensures order[j] in m' && m'[order[j]] == gs'[j] && gs'[j].key == order[j]
    {
      if j != p {
        assert order[j] != order[p];
      }
    }
  }

  lemma MirrorsValues(order: seq<GroupKey>, m: map<GroupKey, SpoolGroup>, gs: seq<SpoolGroup>)
    requires Mirrors(order, m, gs)
    ensures gs == seq(|order|, j requires 0 <= j < |order| => m[order[j]])
  {
  }

  // ---- The specification functions the lemmas state properties with.

  /** The spools of `ss` whose key is `k`, in input order. */
  function MembersOf(ss: seq<Spool>, k: GroupKey, key: Spool -> GroupKey): (r: seq<Spool>)
    ensures |r| <= |ss|
    ensures forall x :: x in r <==> x in ss && key(x) == k
  {
    if ss == [] then []
    else
      var init := ss[..|ss| - 1];
      assert ss == init + [ss[|ss| - 1]];
      MembersOf(init, k, key) + (if key(ss[|ss| - 1]) == k then [ss[|ss| - 1]] else [])
  }

  /** The position of the first spool of `ss` whose key is `k`, or -1. */
  function FirstWithKey(ss: seq<Spool>, k: GroupKey, key: Spool -> GroupKey): (r: int)
    ensures -1 <= r < |ss|
    ensures r == -1 <==> forall j :: 0 <= j < |ss| ==> key(ss[j]) != k
    ensures r >= 0 ==> key(ss[r]) == k && forall j :: 0 <= j < r ==> key(ss[j]) != k
  {
    if ss == [] then -1
    else if key(ss[0]) == k then 0
    else
      var p := FirstWithKey(ss[1..], k, key);
      if p == -1 then -1 else p + 1
  }

  /** What the record for `g.key` holds after the loop has seen `ss`. */
  ghost predicate GroupOk(ss: seq<Spool>, g: SpoolGroup, key: Spool -> GroupKey) {
    && g.spools == MembersOf(ss, g.key, key)
    && g.spools != []
    && g.count == |g.spools|
    && g.totalRemainingG == SumOf(g.spools, Grams)
    && g.avgRemainingPct == MeanPct(g.spools)
    && g.brandLabel == g.key.brandLabel
    && 0 <= FirstWithKey(ss, g.key, key)
    && g.material == ss[FirstWithKey(ss, g.key, key)].material
    && g.color == ss[FirstWithKey(ss, g.key, key)].color
    && g.diameterMm == ss[FirstWithKey(ss, g.key, key)].diameterMm
  }

  ghost predicate KeysDistinct(gs: seq<SpoolGroup>) {
    forall a, b :: 0 <= a < b < |gs| ==> gs[a].key != gs[b].key
  }

  ghost predicate AllOk(ss: seq<Spool>, gs: seq<SpoolGroup>, key: Spool -> GroupKey) {
    forall j :: 0 <= j < |gs| ==> GroupOk(ss, gs[j], key)
  }

  ghost predicate Covers(ss: seq<Spool>, gs: seq<SpoolGroup>, key: Spool -> GroupKey) {
    forall i :: 0 <= i < |ss| ==> FindKey(gs, key(ss[i])) >= 0
  }

  /** The loop's invariant, stated over the specification. */
  ghost predicate AccumulatedOk(ss: seq<Spool>, gs: seq<SpoolGroup>, key: Spool -> GroupKey) {
    KeysDistinct(gs) && AllOk(ss, gs, key) && Covers(ss, gs, key) && SumOf(gs, Count) == |ss| as real
  }

  lemma SumOfOne<T>(x: T, w: T -> real)
    ensures SumOf([x], w) == w(x)
  {
    assert [x][..0] == [];
  }

  lemma FirstWithKeySnoc(ss: seq<Spool>, s: Spool, k: GroupKey, key: Spool -> GroupKey)
    requires FirstWithKey(ss, k, key) >= 0
    ensures FirstWithKey(ss + [s], k, key) == FirstWithKey(ss, k, key)
  {
    var f := FirstWithKey(ss, k, key);
    assert (ss + [s])[f] == ss[f];
    assert forall j :: 0 <= j < f ==> (ss + [s])[j] == ss[j];
  }

  /** A record whose key differs from the new spool's is still correct after the spool is seen. */
  lemma GroupOkOther(ss: seq<Spool>, s: Spool, g: SpoolGroup, key: Spool -> GroupKey)
    requires GroupOk(ss, g, key) && key(s) != g.key
    ensures GroupOk(ss + [s], g, key)
  {
    assert (ss + [s])[..|ss|] == ss;
    FirstWithKeySnoc(ss, s, g.key, key);
  }

  /** The record of the new spool's key is correct after it is pushed. */
  lemma GroupOkAdd(ss: seq<Spool>, s: Spool, g: SpoolGroup, key: Spool -> GroupKey)
    requires GroupOk(ss, g, key) && key(s) == g.key
    ensures GroupOk(ss + [s], AddMember(g, s), key)
  {
    assert (ss + [s])[..|ss|] == ss;
    FirstWithKeySnoc(ss, s, g.key, key);
    var sp := g.spools + [s];
    assert sp[..|sp| - 1] == g.spools;
  }

  lemma {:induction false} MembersOfNone(ss: seq<Spool>, k: GroupKey, key: Spool -> GroupKey)
    requires forall i :: 0 <= i < |ss| ==> key(ss[i]) != k
    ensures MembersOf(ss, k, key) == []
  {
    if ss != [] {
      MembersOfNone(ss[..|ss| - 1], k, key);
    }
  }

  lemma MembersOfNewKey(ss: seq<Spool>, s: Spool, key: Spool -> GroupKey)
    requires MembersOf(ss, key(s), key) == []
    ensures MembersOf(ss + [s], key(s), key) == [s]
  {
    assert (ss + [s])[..|ss|] == ss;
  }

  lemma FirstWithNewKey(ss: seq<Spool>, s: Spool, key: Spool -> GroupKey)
    requires forall i :: 0 <= i < |ss| ==> key(ss[i]) != key(s)
    ensures FirstWithKey(ss + [s], key(s), key) == |ss|
  {
    var ss' := ss + [s];
    assert forall j :: 0 <= j < |ss| ==> ss'[j] == ss[j];
    assert key(ss'[|ss|]) == key(s);
  }

  lemma MeanOfOne(s: Spool)
    ensures MeanPct([s]) == s.remainingPct
  {
    SumOfOne(s, Pct);
  }

  /** The record created for a key not seen before is correct. */
  lemma GroupOkNew(ss: seq<Spool>, s: Spool, key: Spool -> GroupKey)
    requires forall i :: 0 <= i < |ss| ==> key(ss[i]) != key(s)
    ensures GroupOk(ss + [s], NewGroup(key(s), s), key)
  {
    MembersOfNone(ss, key(s), key);
    MembersOfNewKey(ss, s, key);
    FirstWithNewKey(ss, s, key);
    SumOfOne(s, Grams);
    MeanOfOne(s);
  }

  lemma SumOfUpdate<T>(s: seq<T>, p: nat, x: T, w: T -> real)
    requires p < |s|
    ensures SumOf(s[p := x], w) == SumOf(s, w) - w(s[p]) + w(x)
  {
    assert s == s[..p] + [s[p]] + s[p + 1..];
    assert s[p := x] == s[..p] + [x] + s[p + 1..];
    SumOfAppend(s[..p] + [s[p]], s[p + 1..], w);
    SumOfAppend(s[..p], [s[p]], w);
    SumOfAppend(s[..p] + [x], s[p + 1..], w);
    SumOfAppend(s[..p], [x], w);
    SumOfOne(s[p], w);
    SumOfOne(x, w);
  }

  lemma StepKeysDistinct(gs: seq<SpoolGroup>, s: Spool, key: Spool -> GroupKey)
    requires KeysDistinct(gs)
    ensures KeysDistinct(Step(gs, s, key))
    ensures |Step(gs, s, key)| >= |gs|
    ensures forall j :: 0 <= j < |gs| ==> Step(gs, s, key)[j].key == gs[j].key
  {
    var gs' := Step(gs, s, key);
    var p := FindKey(gs, key(s));
    if p >= 0 {
      assert forall j :: 0 <= j < |gs| ==> gs'[j].key == gs[j].key;
    }
  }

  lemma StepCovers(ss: seq<Spool>, gs: seq<SpoolGroup>, s: Spool, key: Spool -> GroupKey)
    requires Covers(ss, gs, key)
    ensures Covers(ss + [s], Step(gs, s, key), key)
  {
    var ss' := ss + [s];
    var gs' := Step(gs, s, key);
    var p := FindKey(gs, key(s));
    assert forall j :: 0 <= j < |gs| ==> gs'[j].key == gs[j].key;
    forall i | 0 <= i < |ss'| ensures FindKey(gs', key(ss'[i])) >= 0 {
      if i < |ss| {
        assert ss'[i] == ss[i];
        var q := FindKey(gs, key(ss[i]));
        assert gs'[q].key == key(ss'[i]);
      } else if p == -1 {
        assert gs'[|gs|].key == key(ss'[i]);
      } else {
        assert gs'[p].key == key(ss'[i]);
      }
    }
  }

  lemma StepCount(gs: seq<SpoolGroup>, s: Spool, key: Spool -> GroupKey)
    ensures SumOf(Step(gs, s, key), Count) == SumOf(gs, Count) + 1.0
  {
    var p := FindKey(gs, key(s));
    if p == -1 {
      var g := NewGroup(key(s), s);
      SumOfAppend(gs, [g], Count);
      SumOfOne(g, Count);
    } else {
      SumOfUpdate(gs, p, AddMember(gs[p], s), Count);
    }
  }

  lemma StepAllOkNew(ss: seq<Spool>, gs: seq<SpoolGroup>, s: Spool, key: Spool -> GroupKey)
    requires AllOk(ss, gs, key) && Covers(ss, gs, key) && FindKey(gs, key(s)) == -1
    ensures AllOk(ss + [s], gs + [NewGroup(key(s), s)], key)
  {
    var k := key(s);
    var gs' := gs + [NewGroup(k, s)];
    forall i | 0 <= i < |ss| ensures key(ss[i]) != k {
      assert FindKey(gs, key(ss[i])) >= 0;
    }
    GroupOkNew(ss, s, key);
    forall j | 0 <= j < |gs| ensures GroupOk(ss + [s], gs'[j], key) {
      assert gs'[j] == gs[j];
      GroupOkOther(ss, s, gs[j], key);
    }
  }

  lemma StepAllOkExisting(ss: seq<Spool>, gs: seq<SpoolGroup>, s: Spool, key: Spool -> GroupKey, p: nat)
    requires AllOk(ss, gs, key) && KeysDistinct(gs) && p < |gs| && gs[p].key == key(s)
    ensures AllOk(ss + [s], gs[p := AddMember(gs[p], s)], key)
  {
    var gs' := gs[p := AddMember(gs[p], s)];
    GroupOkAdd(ss, s, gs[p], key);
    forall j | 0 <= j < |gs'| && j != p ensures GroupOk(ss + [s], gs'[j], key) {
      GroupOkOther(ss, s, gs[j], key);
    }
  }

  /** One pass of the loop body keeps the invariant. */
  lemma StepOk(ss: seq<Spool>, gs: seq<SpoolGroup>, s: Spool, key: Spool -> GroupKey)
    requires AccumulatedOk(ss, gs, key)
    ensures AccumulatedOk(ss + [s], Step(gs, s, key), key)
  {
    StepKeysDistinct(gs, s, key);
    StepCovers(ss, gs, s, key);
    StepCount(gs, s, key);
    var p := FindKey(gs, key(s));
    if p == -1 {
      StepAllOkNew(ss, gs, s, key);
    } else {
      StepAllOkExisting(ss, gs, s, key, p);
    }
  }

  lemma {:induction false} AccumulatedIsOk(ss: seq<Spool>, key: Spool -> GroupKey)
    ensures AccumulatedOk(ss, Accumulated(ss, key), key)
  {
    if ss != [] {
      var init := ss[..|ss| - 1];
      var s := ss[|ss| - 1];
      assert ss == init + [s];
      assert Accumulated(ss, key) == Step(Accumulated(init, key), s, key);
      AccumulatedIsOk(init, key);
      StepOk(init, Accumulated(init, key), s, key);
    }
  }

  // ---- What `groupSpools` promises.

  function GroupKeyOf(g: SpoolGroup): GroupKey { g.key }

  predicate HasActive(g: SpoolGroup) {
    exists i :: 0 <= i < |g.spools| && g.spools[i].status == Active
  }

  /** A record with its members sorted satisfies what the unsorted record did, over the same members. */
  lemma SortedMembersOk(ss: seq<Spool>, g: SpoolGroup, key: Spool -> GroupKey)
    requires GroupOk(ss, g, key)
    ensures var w := WithSortedMembers(g);
            && multiset(w.spools) == multiset(MembersOf(ss, w.key, key))
            && w.spools != [] && w.count == |w.spools|
            && w.totalRemainingG == SumOf(w.spools, Grams)
            && w.avgRemainingPct == MeanPct(w.spools)
            && (forall a, b :: 0 <= a < b < |w.spools| ==> w.spools[a].remainingPct <= w.spools[b].remainingPct)
            && w.brandLabel == w.key.brandLabel
            && 0 <= FirstWithKey(ss, w.key, key)
            && w.material == ss[FirstWithKey(ss, w.key, key)].material
            && w.color == ss[FirstWithKey(ss, w.key, key)].color
            && w.diameterMm == ss[FirstWithKey(ss, w.key, key)].diameterMm
  {
    var w := WithSortedMembers(g);
    SumOfSorted(g.spools, MemberKey, Grams);
    SumOfSorted(g.spools, MemberKey, Pct);
    SortBySorted(g.spools, MemberKey);
    forall a, b | 0 <= a < b < |w.spools|
      ensures w.spools[a].remainingPct <= w.spools[b].remainingPct
    {
      assert KeyLe(MemberKey(w.spools[a]), MemberKey(w.spools[b]));
    }
  }

  /** Every group of the result is one of the accumulated records with its members sorted. */
  lemma GroupedFromRecord(ss: seq<Spool>, j: nat) returns (t: nat)
    requires j < |Grouped(ss)|
    ensures t < |Accumulated(ss, KeyOf)|
    ensures Grouped(ss)[j] == WithSortedMembers(Accumulated(ss, KeyOf)[t])
  {
    var w := SortedMembersAll(Accumulated(ss, KeyOf));
    assert Grouped(ss)[j] in multiset(w);
    t :| 0 <= t < |w| && w[t] == Grouped(ss)[j];
  }

  /** Every group holds, as a multiset, exactly the input spools with its key, sorted ascending by percent; its count, total and mean are those of its members; its fields come from the first spool seen with the key. */
  lemma GroupedGroup(ss: seq<Spool>, j: nat)
    requires j < |Grouped(ss)|
    ensures var g := Grouped(ss)[j];
            && multiset(g.spools) == multiset(MembersOf(ss, g.key, KeyOf))
            && g.spools != [] && g.count == |g.spools|
            && g.totalRemainingG == SumOf(g.spools, Grams)
            && g.avgRemainingPct == MeanPct(g.spools)
            && (forall a, b :: 0 <= a < b < |g.spools| ==> g.spools[a].remainingPct <= g.spools[b].remainingPct)
            && g.brandLabel == g.key.brandLabel
            && 0 <= FirstWithKey(ss, g.key, KeyOf)
            && g.material == ss[FirstWithKey(ss, g.key, KeyOf)].material
            && g.color == ss[FirstWithKey(ss, g.key, KeyOf)].color
            && g.diameterMm == ss[FirstWithKey(ss, g.key, KeyOf)].diameterMm
  {
    var t := GroupedFromRecord(ss, j);
    AccumulatedIsOk(ss, KeyOf);
    SortedMembersOk(ss, Accumulated(ss, KeyOf)[t], KeyOf);
  }

  /** No two groups share a key. */
  lemma GroupedKeysDistinct(ss: seq<Spool>)
    ensures forall a, b :: 0 <= a < b < |Grouped(ss)| ==> Grouped(ss)[a].key != Grouped(ss)[b].key
  {
    var v := Accumulated(ss, KeyOf);
    var w := SortedMembersAll(v);
    AccumulatedIsOk(ss, KeyOf);
    assert DistinctBy(w, GroupKeyOf);
    SortKeepsDistinct(w, GroupOrderKey, GroupKeyOf);
  }

  /** Every input spool is in the group of its key, and in no other group; that group exists. */
  lemma GroupedPlacesSpool(ss: seq<Spool>, i: nat)
    requires i < |ss|
    ensures exists j :: 0 <= j < |Grouped(ss)| && Grouped(ss)[j].key == KeyOf(ss[i])
    ensures forall j :: 0 <= j < |Grouped(ss)| ==> (ss[i] in Grouped(ss)[j].spools <==> Grouped(ss)[j].key == KeyOf(ss[i]))
  {
    var v := Accumulated(ss, KeyOf);
    var w := SortedMembersAll(v);
    var gs := Grouped(ss);
    AccumulatedIsOk(ss, KeyOf);
    var q := FindKey(v, KeyOf(ss[i]));
    assert w[q] in multiset(gs);
    var j0 :| 0 <= j0 < |gs| && gs[j0] == w[q];
    assert gs[j0].key == KeyOf(ss[i]);
    forall j | 0 <= j < |gs| ensures ss[i] in gs[j].spools <==> gs[j].key == KeyOf(ss[i]) {
      GroupedGroup(ss, j);
      assert ss[i] in gs[j].spools <==> ss[i] in multiset(gs[j].spools);
      assert ss[i] in MembersOf(ss, gs[j].key, KeyOf) <==> ss[i] in multiset(MembersOf(ss, gs[j].key, KeyOf));
    }
  }

  lemma {:induction false} SumOfCountsSorted(gs: seq<SpoolGroup>)
    ensures SumOf(SortedMembersAll(gs), Count) == SumOf(gs, Count)
  {
    if gs != [] {
      var n := |gs| - 1;
      var w := SortedMembersAll(gs);
      SumOfCountsSorted(gs[..n]);
      assert w[..n] == SortedMembersAll(gs[..n]);
      assert Count(w[n]) == Count(gs[n]);
      assert SumOf(w, Count) == SumOf(w[..n], Count) + Count(w[n]);
    }
  }

  /** The group counts add up to the number of input spools. */
  lemma GroupedCountTotal(ss: seq<Spool>)
    ensures SumOf(Grouped(ss), Count) == |ss| as real
  {
    var v := Accumulated(ss, KeyOf);
    AccumulatedIsOk(ss, KeyOf);
    SumOfCountsSorted(v);
    SumOfSorted(SortedMembersAll(v), GroupOrderKey, Count);
  }

  /** Groups with an ACTIVE member come first; groups of the same rank are ascending by average percent. */
  lemma GroupedOrder(ss: seq<Spool>)
    ensures forall a, b :: 0 <= a < b < |Grouped(ss)| ==>
              && (HasActive(Grouped(ss)[b]) ==> HasActive(Grouped(ss)[a]))
              && (HasActive(Grouped(ss)[a]) == HasActive(Grouped(ss)[b]) ==>
                    Grouped(ss)[a].avgRemainingPct <= Grouped(ss)[b].avgRemainingPct)
  {
    var gs := Grouped(ss);
    SortBySorted(SortedMembersAll(Accumulated(ss, KeyOf)), GroupOrderKey);
    forall a, b | 0 <= a < b < |gs|
      ensures (HasActive(gs[b]) ==> HasActive(gs[a]))
      ensures (HasActive(gs[a]) == HasActive(gs[b]) ==> gs[a].avgRemainingPct <= gs[b].avgRemainingPct)
    {
      assert KeyLe(GroupOrderKey(gs[a]), GroupOrderKey(gs[b]));
    }
  }

  /** No spools, no groups. */
  lemma GroupedEmpty()
    ensures Grouped([]) == []
  {
  }
}
