/**
 * The application shell: the inventory list's filter and sort, the material
 * choices offered by the filter, and the store that holds the data and writes
 * every change through to storage.
 */
module App {
  import opened Wrappers
  import opened Text
  import opened Filament
  import opened Sorting
  import Storage

  // ---- The filtered list.

  datatype MaterialFacet = AnyMaterial | MaterialIs(m: Material)
  datatype StatusFacet = AnyStatus | StatusIs(st: Status)

  /** The search box and the two select boxes. */
  datatype Filters = Filters(q: string, material: MaterialFacet, status: StatusFacet)

  /** `filters.q.trim().toLowerCase()`. */
  function Query(f: Filters): string {
    Lower(Trim(f.q))
  }

  /** The searched text: name, brand (or nothing), material, colour and status, lower-cased. */
  function Hay(s: Spool): string {
    Lower(s.name + " " + s.brand.GetOr("") + " " + MaterialName(s.material) + " " + s.color + " " + StatusName(s.status))
  }

  predicate Passes(f: Filters, s: Spool) {
    && (f.material.AnyMaterial? || s.material == f.material.m)
    && (f.status.AnyStatus? || s.status == f.status.st)
    && (Query(f) == [] || Includes(Hay(s), Query(f)))
  }

  /** `spools.filter(...)`. */
  function Select(spools: seq<Spool>, f: Filters): (r: seq<Spool>)
    ensures |r| <= |spools|
    ensures forall x :: x in r <==> x in spools && Passes(f, x)
    ensures forall x :: multiset(r)[x] == if Passes(f, x) then multiset(spools)[x] else 0
  {
    if spools == [] then []
    else
      assert spools == [spools[0]] + spools[1..];
      (if Passes(f, spools[0]) then [spools[0]] else []) + Select(spools[1..], f)
  }

  /** Active first, then empty, then the rest. */
  function ListRank(s: Spool): int {
    if s.status == Active then 0 else if s.status == Empty then 1 else 2
  }

  function ListKey(s: Spool): Key {
    (ListRank(s), s.remainingPct)
  }

  /** `filtered`: the spools that pass the filters, sorted by rank and then by remaining percent. */
  function Filtered(spools: seq<Spool>, f: Filters): seq<Spool> {
    SortBy(Select(spools, f), ListKey)
  }

  /** A spool is listed exactly when it passes the material facet, the status facet and the query. */
  lemma FilteredMembers(spools: seq<Spool>, f: Filters, x: Spool)
    ensures x in Filtered(spools, f) <==> x in spools && Passes(f, x)
  {
    MemberOfSorted(Select(spools, f), ListKey, x);
  }

  /** Each spool that passes is listed as often as it occurs in the data; the rest are not listed. */
  lemma FilteredCounts(spools: seq<Spool>, f: Filters, x: Spool)
    ensures multiset(Filtered(spools, f))[x] == if Passes(f, x) then multiset(spools)[x] else 0
  {
  }

  /** The list is ordered active, then empty, then the rest, and by remaining percent within a rank. */
  lemma FilteredOrder(spools: seq<Spool>, f: Filters)
    ensures var r := Filtered(spools, f);
      forall i, j :: 0 <= i < j < |r| ==>
        ListRank(r[i]) < ListRank(r[j]) || (ListRank(r[i]) == ListRank(r[j]) && r[i].remainingPct <= r[j].remainingPct)
  {
    SortBySorted(Select(spools, f), ListKey);
  }

  lemma {:induction false} SelectAll(spools: seq<Spool>, f: Filters)
    requires forall x :: x in spools ==> Passes(f, x)
    ensures Select(spools, f) == spools
  {
    if spools != [] {
      SelectAll(spools[1..], f);
    }
  }

  /** With both facets at "ALL" and a blank query the list is a reordering of all the spools. */
  lemma NoFilterKeepsAll(spools: seq<Spool>, f: Filters)
    requires f.material.AnyMaterial? && f.status.AnyStatus? && Trim(f.q) == []
    ensures multiset(Filtered(spools, f)) == multiset(spools)
  {
    SelectAll(spools, f);
  }

  lemma LowerPrefixMatch(x: string, y: string, q: string)
    requires Includes(Lower(x), q)
    ensures Includes(Lower(x + y), q)
  {
    LowerAppend(x, y);
    IncludesInPrefix(Lower(x), Lower(y), q);
  }

  lemma LowerSuffixMatch(x: string, y: string, q: string)
    requires Includes(Lower(y), q)
    ensures Includes(Lower(x + y), q)
  {
    LowerAppend(x, y);
    IncludesInSuffix(Lower(x), Lower(y), q);
  }

  /** The query matches case-insensitively inside the name and inside the colour. */
  lemma QueryFindsNameAndColor(f: Filters, s: Spool)
    requires f.material.AnyMaterial? && f.status.AnyStatus?
    requires Includes(Lower(s.name), Query(f)) || Includes(Lower(s.color), Query(f))
    ensures Passes(f, s)
  {
    var q := Query(f);
    var a := s.name + " ";
    var b := a + s.brand.GetOr("");
    var c := b + " ";
    var d := c + MaterialName(s.material);
    var e := d + " ";
    var g := e + s.color;
    var h := g + " ";
    assert Hay(s) == Lower(h + StatusName(s.status));
    if Includes(Lower(s.name), q) {
      LowerPrefixMatch(s.name, " ", q);
      LowerPrefixMatch(a, s.brand.GetOr(""), q);
      LowerPrefixMatch(b, " ", q);
      LowerPrefixMatch(c, MaterialName(s.material), q);
      LowerPrefixMatch(d, " ", q);
      LowerPrefixMatch(e, s.color, q);
    } else {
      LowerSuffixMatch(e, s.color, q);
    }
    LowerPrefixMatch(g, " ", q);
    LowerPrefixMatch(h, StatusName(s.status), q);
  }

  // ---- Material choices.

  /** The position of a material's name in JavaScript's default string order. */
  function NameRank(m: Material): int {
    match m
    case Abs => 0
    case Asa => 1
    case Nylon => 2
    case Other => 3
    case Pc => 4
    case Petg => 5
    case Pla => 6
    case Tpu => 7
  }

  lemma NameRankIsStringOrder(a: Material, b: Material)
    ensures NameRank(a) < NameRank(b) <==> StrLt(MaterialName(a), MaterialName(b))
  {
    if a == b {
      StrLtIrreflexive(MaterialName(a));
    }
  }

  /** `new Set(spools.map(s => s.material))`: each material once, in order of first appearance. */
  function DistinctMaterials(spools: seq<Spool>): (r: seq<Material>)
    ensures forall m :: m in r <==> exists s :: s in spools && s.material == m
    ensures forall i, j :: 0 <= i < j < |r| ==> r[i] != r[j]
  {
    if spools == [] then []
    else
      var p := DistinctMaterials(spools[..|spools| - 1]);
      var m := spools[|spools| - 1].material;
      assert spools == spools[..|spools| - 1] + [spools[|spools| - 1]];
      if m in p then p else p + [m]
  }

  function MaterialKey(m: Material): Key {
    (NameRank(m), 0.0)
  }

  /** `materialOptions`: the set sorted by `Array.prototype.sort`'s default string order. */
  function MaterialOptions(spools: seq<Spool>): seq<Material> {
    SortBy(DistinctMaterials(spools), MaterialKey)
  }

  /** The options are the materials present, each once. */
  lemma MaterialOptionsMembers(spools: seq<Spool>, m: Material)
    ensures m in MaterialOptions(spools) <==> exists s :: s in spools && s.material == m
  {
    MemberOfSorted(DistinctMaterials(spools), MaterialKey, m);
  }

  /** The options are in strictly increasing name order, so no material is offered twice. */
  lemma MaterialOptionsOrder(spools: seq<Spool>)
    ensures var r := MaterialOptions(spools);
      forall i, j :: 0 <= i < j < |r| ==> StrLt(MaterialName(r[i]), MaterialName(r[j]))
  {
    var d := DistinctMaterials(spools);
    var r := MaterialOptions(spools);
    SortBySorted(d, MaterialKey);
    SortKeepsDistinct(d, MaterialKey, (m: Material) => m);
    forall i, j | 0 <= i < j < |r| ensures StrLt(MaterialName(r[i]), MaterialName(r[j])) {
      assert KeyLe(MaterialKey(r[i]), MaterialKey(r[j]));
      assert r[i] != r[j];
      assert NameRank(r[i]) != NameRank(r[j]);
      NameRankIsStringOrder(r[i], r[j]);
    }
  }

  // ---- The store.

  /** The `data` state of the application, the last snapshot written, and the dialog state the handlers reset. */
  class Store {
    var data: AppData
    var saved: Option<AppData>
    var formOpen: bool
    var detailsOpen: bool
    var selected: Option<Spool>
    var editing: Option<Spool>

    /** The store starts from what `loadData` returned, with no dialog open. */
    constructor (loaded: AppData)
      ensures data == loaded && saved.None?
      ensures !formOpen && !detailsOpen && selected.None? && editing.None?
    {
      data := loaded;
      saved := None;
      formOpen := false;
      detailsOpen := false;
      selected := None;
      editing := None;
    }

    /** `persist`: the spools are replaced, every other field of the data is kept, and the result is written. */
    method Persist(nextSpools: seq<Spool>)
      modifies this
      ensures data == old(data).(spools := nextSpools) && saved == Some(data)
      ensures formOpen == old(formOpen) && detailsOpen == old(detailsOpen)
      ensures selected == old(selected) && editing == old(editing)
    {
      data := data.(spools := nextSpools);
      saved := Some(data);
    }

    /** `handleApplyData`: an import replaces all the data, is written, and closes the dialogs. */
    method ApplyData(next: AppData)
      modifies this
      ensures data == next && saved == Some(next)
      ensures !formOpen && !detailsOpen && selected.None? && editing.None?
    {
      data := next;
      saved := Some(next);
      formOpen := false;
      detailsOpen := false;
      selected := None;
      editing := None;
    }

    /** `handleSaveSpool`: the form's spool is upserted and written. */
    method SaveSpool(spool: Spool)
      modifies this
      ensures data == old(data).(spools := Storage.Upserted(old(data.spools), spool)) && saved == Some(data)
      ensures formOpen == old(formOpen) && detailsOpen == old(detailsOpen)
      ensures selected == old(selected) && editing == old(editing)
    {
      var next := Storage.UpsertSpool(data.spools, spool);
      Persist(next);
    }

    /** `handleUpdateSpool`: like a save, and the details dialog shows the new version. */
    method UpdateSpool(spool: Spool)
      modifies this
      ensures data == old(data).(spools := Storage.Upserted(old(data.spools), spool)) && saved == Some(data)
      ensures selected == Some(spool)
      ensures formOpen == old(formOpen) && detailsOpen == old(detailsOpen) && editing == old(editing)
    {
      var next := Storage.UpsertSpool(data.spools, spool);
      Persist(next);
      selected := Some(spool);
    }

    /** `handleDeleteSpool`: nothing happens unless confirmed; then the spool goes and the details close. */
    method DeleteSpool(id: string, confirmed: bool)
      modifies this
      ensures !confirmed ==> data == old(data) && saved == old(saved) && detailsOpen == old(detailsOpen)
                             && selected == old(selected)
      ensures confirmed ==> data == old(data).(spools := Storage.RemoveSpool(old(data.spools), id))
                            && saved == Some(data) && !detailsOpen && selected.None?
      ensures formOpen == old(formOpen) && editing == old(editing)
    {
      if !confirmed {
        return;
      }
      var next := Storage.RemoveSpool(data.spools, id);
      Persist(next);
      detailsOpen := false;
      selected := None;
    }
  }

  /** Saving a spool and then deleting it leaves the same spools as deleting it at once. */
  method SaveThenDelete(store: Store, spool: Spool)
    modifies store
    ensures store.data == old(store.data).(spools := Storage.RemoveSpool(old(store.data.spools), spool.id))
    ensures store.saved == Some(store.data)
  {
    store.SaveSpool(spool);
    store.DeleteSpool(spool.id, true);
    Storage.RemoveAfterUpsert(old(store.data.spools), spool);
  }
}
