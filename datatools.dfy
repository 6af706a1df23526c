/**
 * Backup and restore: the export file name, the shape tests applied to an imported
 * file, the merge of the current spools with the imported ones (de-duplicated by
 * id, newest first), and the import decision flow with its prompts answered.
 */
module DataTools {
  import opened Wrappers
  import opened Json
  import opened Text
  import opened Filament
  import opened Sorting
  import Storage

  /** `isValidAppData`: an object whose `version` is 1 and whose `spools` is an array. */
  predicate IsValidAppData(x: Json) {
    && x.JObj?
    && "version" in x.fields && x.fields["version"] == JNum(1.0)
    && "spools" in x.fields && x.fields["spools"].JArr?
  }

  /** The import test and the test `loadData` applies to the stored snapshot accept the same values. */
  lemma ValidAppDataIsWellShaped(x: Json)
    ensures IsValidAppData(x) <==> Storage.WellShaped(x)
  {
  }

  /** `isValidSpoolLike`: an object whose `id` is a string that is not blank. */
  predicate IsValidSpoolLike(x: Json) {
    && x.JObj?
    && "id" in x.fields && x.fields["id"].JStr?
    && Trim(x.fields["id"].s) != []
  }

  /** Every spool the application itself saves passes the test when it has a non-blank id. */
  lemma EncodedSpoolIsValid(s: Spool)
    requires Trim(s.id) != []
    ensures IsValidSpoolLike(SpoolToJson(s))
  {
    SpoolToJsonFields(s);
  }

  function IdOf(x: Json): string
    requires IsValidSpoolLike(x)
  {
    x.fields["id"].s
  }

  // ---- The map the two loops fill: ids in insertion order, and the record stored under each.

  datatype Table = Table(order: seq<string>, records: map<string, Json>)

  /** `if (isValidSpoolLike(s)) map.set(s.id, s)`: a new id is appended, a known id keeps its place. */
  function Put(t: Table, x: Json): Table {
    if !IsValidSpoolLike(x) then t
    else
      var id := IdOf(x);
      Table(if id in t.records then t.order else t.order + [id], t.records[id := x])
  }

  function PutAll(t: Table, xs: seq<Json>): Table {
    if xs == [] then t else Put(PutAll(t, xs[..|xs| - 1]), xs[|xs| - 1])
  }

  ghost predicate TableOk(t: Table) {
    && (forall id :: id in t.records <==> id in t.order)
    && (forall a, b :: 0 <= a < b < |t.order| ==> t.order[a] != t.order[b])
  }

  /** `Array.from(map.values())`. */
  function Values(t: Table): (r: seq<Json>)
    requires forall j :: 0 <= j < |t.order| ==> t.order[j] in t.records
    ensures |r| == |t.order| && forall j :: 0 <= j < |r| ==> r[j] == t.records[t.order[j]]
  {
    seq(|t.order|, j requires 0 <= j < |t.order| => t.records[t.order[j]])
  }

  /** With no id repeated in the order, the ids of the order are exactly as many as the records. */
  lemma {:induction false} DistinctIdsCount(order: seq<string>)
    requires forall a, b :: 0 <= a < b < |order| ==> order[a] != order[b]
    ensures |(set id | id in order)| == |order|
  {
    if order != [] {
      var init := order[..|order| - 1];
      var last := order[|order| - 1];
      DistinctIdsCount(init);
      assert order == init + [last];
      assert last !in init;
      assert (set id | id in order) == (set id | id in init) + {last};
    }
  }

  /** In a consistent table the values hold one record per key: as many as the keys, each key's at its place in the order. */
  lemma ValuesOnePerKey(t: Table)
    requires TableOk(t)
    ensures forall j :: 0 <= j < |t.order| ==> t.order[j] in t.records
    ensures |Values(t)| == |t.records|
    ensures forall id :: id in t.records ==>
              exists j :: 0 <= j < |t.order| && t.order[j] == id && Values(t)[j] == t.records[id]
  {
    assert forall j :: 0 <= j < |t.order| ==> t.order[j] in t.order;
    DistinctIdsCount(t.order);
    assert t.records.Keys == set id | id in t.order;
    forall id | id in t.records
      ensures exists j :: 0 <= j < |t.order| && t.order[j] == id && Values(t)[j] == t.records[id]
    {
      assert id in t.order;
      var j :| 0 <= j < |t.order| && t.order[j] == id;
      assert Values(t)[j] == t.records[id];
    }
  }

  /**
   * The sort key of a record: `Date.parse(a.updatedAt ?? a.createdAt ?? "") || 0`.
   * `parse` stands for `Date.parse` applied to the value after its conversion to a
   * string; None stands for NaN.
   */
  function Recency(x: Json, parse: Json -> Option<int>): int {
    var stamp := OrElse(Get(x, "updatedAt"), OrElse(Get(x, "createdAt"), JStr("")));
    parse(stamp).GetOr(0)
  }

  /** The comparator `tb - ta`: newest first. */
  function NewestFirst(parse: Json -> Option<int>): Json -> Key {
    x => (0, -(Recency(x, parse) as real))
  }

  function Merged(existing: seq<Json>, incoming: seq<Json>, parse: Json -> Option<int>): seq<Json> {
    var t := PutAll(Table([], map[]), existing + incoming);
    PutAllOk(existing + incoming);
    SortBy(Values(t), NewestFirst(parse))
  }

  /** One `map.set` of a valid record; anything else is skipped. */
  method Set(order: seq<string>, records: map<string, Json>, s: Json)
    returns (order': seq<string>, records': map<string, Json>)
    ensures Table(order', records') == Put(Table(order, records), s)
  {
    order', records' := order, records;
    if IsValidSpoolLike(s) {
      if s.fields["id"].s !in records {
        order' := order + [s.fields["id"].s];
      }
      records' := records[s.fields["id"].s := s];
    }
  }

  /** `mergeById`: existing records first, then incoming ones overwrite by id; newest first. */
  method MergeById(existing: seq<Json>, incoming: seq<Json>, parse: Json -> Option<int>) returns (r: seq<Json>)
    ensures r == Merged(existing, incoming, parse)
  {
    var order: seq<string> := [];
    var records: map<string, Json> := map[];
    var i := 0;
    while i < |existing|
      invariant 0 <= i <= |existing|
      invariant Table(order, records) == PutAll(Table([], map[]), existing[..i])
    {
      ghost var pre := Table(order, records);
      assert existing[..i + 1][..i] == existing[..i];
      order, records := Set(order, records, existing[i]);
      assert PutAll(Table([], map[]), existing[..i + 1]) == Put(pre, existing[i]);
      i := i + 1;
    }
    assert existing[..i] == existing;
    i := 0;
    assert existing + incoming[..0] == existing;
    while i < |incoming|
      invariant 0 <= i <= |incoming|
      invariant Table(order, records) == PutAll(Table([], map[]), existing + incoming[..i])
    {
      ghost var pre := Table(order, records);
      assert (existing + incoming[..i + 1])[..|existing| + i] == existing + incoming[..i];
      order, records := Set(order, records, incoming[i]);
      assert PutAll(Table([], map[]), existing + incoming[..i + 1]) == Put(pre, incoming[i]);
      i := i + 1;
    }
    assert incoming[..i] == incoming;
    PutAllOk(existing + incoming);
    var values := seq(|order|, j requires 0 <= j < |order| => records[order[j]]);
    assert values == Values(Table(order, records));
    r := SortBy(values, NewestFirst(parse));
  }

  // ---- What the merge promises.

  /** The last valid record of `xs` with id `id`, if any. */
  function LastWithId(xs: seq<Json>, id: string): Option<Json> {
    if xs == [] then None
    else
      var x := xs[|xs| - 1];
      if IsValidSpoolLike(x) && IdOf(x) == id then Some(x) else LastWithId(xs[..|xs| - 1], id)
  }

  ghost predicate Agrees(t: Table, xs: seq<Json>) {
    && TableOk(t)
    && forall id :: id in t.records ==>
         && IsValidSpoolLike(t.records[id]) && IdOf(t.records[id]) == id
         && LastWithId(xs, id) == Some(t.records[id])
  }

  lemma {:induction false} PutAllOk(xs: seq<Json>)
    ensures Agrees(PutAll(Table([], map[]), xs), xs)
    ensures forall id :: id in PutAll(Table([], map[]), xs).records <==> LastWithId(xs, id).Some?
  {
    if xs != [] {
      var init := xs[..|xs| - 1];
      var x := xs[|xs| - 1];
      PutAllOk(init);
      assert xs[..|xs| - 1] == init;
    }
  }

  /** A found record is valid, carries the id, and no later record is valid with that id. */
  lemma {:induction false} LastWithIdFound(xs: seq<Json>, id: string)
    ensures LastWithId(xs, id).Some? ==>
              exists i :: 0 <= i < |xs| && xs[i] == LastWithId(xs, id).value
                          && IsValidSpoolLike(xs[i]) && IdOf(xs[i]) == id
                          && forall k :: i < k < |xs| ==> !(IsValidSpoolLike(xs[k]) && IdOf(xs[k]) == id)
  {
    if xs != [] {
      var init := xs[..|xs| - 1];
      var x := xs[|xs| - 1];
      if !(IsValidSpoolLike(x) && IdOf(x) == id) {
        assert LastWithId(xs, id) == LastWithId(init, id);
        LastWithIdFound(init, id);
        if LastWithId(init, id).Some? {
          var i :| 0 <= i < |init| && init[i] == LastWithId(init, id).value
                   && IsValidSpoolLike(init[i]) && IdOf(init[i]) == id
                   && forall k :: i < k < |init| ==> !(IsValidSpoolLike(init[k]) && IdOf(init[k]) == id);
          assert xs[i] == init[i];
          forall k | i < k < |xs|
            ensures !(IsValidSpoolLike(xs[k]) && IdOf(xs[k]) == id)
          {
            if k < |init| {
              assert xs[k] == init[k];
            }
          }
        }
      }
    }
  }

  /** Nothing is found only when no record is valid with the id. */
  lemma {:induction false} LastWithIdNone(xs: seq<Json>, id: string)
    ensures LastWithId(xs, id).None? ==> forall i :: 0 <= i < |xs| ==> !(IsValidSpoolLike(xs[i]) && IdOf(xs[i]) == id)
  {
    if xs != [] {
      var init := xs[..|xs| - 1];
      var x := xs[|xs| - 1];
      if !(IsValidSpoolLike(x) && IdOf(x) == id) {
        assert LastWithId(xs, id) == LastWithId(init, id);
        LastWithIdNone(init, id);
        forall i | 0 <= i < |xs| && LastWithId(xs, id).None?
          ensures !(IsValidSpoolLike(xs[i]) && IdOf(xs[i]) == id)
        {
          if i < |init| {
            assert xs[i] == init[i];
          }
        }
      }
    }
  }

  lemma LastWithIdFacts(xs: seq<Json>, id: string)
    ensures LastWithId(xs, id).Some? ==>
              && LastWithId(xs, id).value in xs
              && IsValidSpoolLike(LastWithId(xs, id).value) && IdOf(LastWithId(xs, id).value) == id
    ensures LastWithId(xs, id).Some? <==> exists i :: 0 <= i < |xs| && IsValidSpoolLike(xs[i]) && IdOf(xs[i]) == id
    ensures LastWithId(xs, id).Some? ==>
              exists i :: 0 <= i < |xs| && xs[i] == LastWithId(xs, id).value
                          && forall k :: i < k < |xs| ==> !(IsValidSpoolLike(xs[k]) && IdOf(xs[k]) == id)
  {
    LastWithIdFound(xs, id);
    LastWithIdNone(xs, id);
  }

  /** A later valid record with the same id hides every earlier one. */
  lemma {:induction false} LastWithIdAppend(a: seq<Json>, b: seq<Json>, id: string)
    ensures LastWithId(a + b, id) == if LastWithId(b, id).Some? then LastWithId(b, id) else LastWithId(a, id)
  {
    if b == [] {
      assert a + b == a;
    } else {
      assert (a + b)[..|a + b| - 1] == a + b[..|b| - 1];
      LastWithIdAppend(a, b[..|b| - 1], id);
    }
  }

  lemma MergedMembers(existing: seq<Json>, incoming: seq<Json>, parse: Json -> Option<int>, x: Json)
    ensures x in Merged(existing, incoming, parse) <==>
              IsValidSpoolLike(x) && LastWithId(existing + incoming, IdOf(x)) == Some(x)
  {
    var xs := existing + incoming;
    var t := PutAll(Table([], map[]), xs);
    PutAllOk(xs);
    var v := Values(t);
    MemberOfSorted(v, NewestFirst(parse), x);
    if IsValidSpoolLike(x) && LastWithId(xs, IdOf(x)) == Some(x) {
      var k :| 0 <= k < |t.order| && t.order[k] == IdOf(x);
      assert v[k] == x;
    }
  }

  /** Only valid records survive, each is the last valid record with its id, and every valid id is kept. */
  lemma MergedContents(existing: seq<Json>, incoming: seq<Json>, parse: Json -> Option<int>)
    ensures forall x :: x in Merged(existing, incoming, parse) ==>
              && IsValidSpoolLike(x) && x in existing + incoming
              && LastWithId(existing + incoming, IdOf(x)) == Some(x)
    ensures forall x :: x in existing + incoming && IsValidSpoolLike(x) ==>
              exists y :: y in Merged(existing, incoming, parse) && IdOf(y) == IdOf(x)
  {
    var xs := existing + incoming;
    forall x | x in Merged(existing, incoming, parse)
      ensures IsValidSpoolLike(x) && x in xs && LastWithId(xs, IdOf(x)) == Some(x)
    {
      MergedMembers(existing, incoming, parse, x);
      LastWithIdFacts(xs, IdOf(x));
    }
    forall x | x in xs && IsValidSpoolLike(x)
      ensures exists y :: y in Merged(existing, incoming, parse) && IdOf(y) == IdOf(x)
    {
      var i :| 0 <= i < |xs| && xs[i] == x;
      LastWithIdFacts(xs, IdOf(x));
      var y := LastWithId(xs, IdOf(x)).value;
      MergedMembers(existing, incoming, parse, y);
    }
  }

  /** An imported record replaces the current record with the same id. */
  lemma MergedPrefersIncoming(existing: seq<Json>, incoming: seq<Json>, parse: Json -> Option<int>, x: Json)
    requires x in incoming && IsValidSpoolLike(x)
    ensures exists y :: y in Merged(existing, incoming, parse) && IsValidSpoolLike(y) && IdOf(y) == IdOf(x) && y in incoming
  {
    var i :| 0 <= i < |incoming| && incoming[i] == x;
    LastWithIdFacts(incoming, IdOf(x));
    LastWithIdAppend(existing, incoming, IdOf(x));
    var y := LastWithId(incoming, IdOf(x)).value;
    MergedMembers(existing, incoming, parse, y);
  }

  /** No id occurs twice in the merge. */
  lemma MergedIdsDistinct(existing: seq<Json>, incoming: seq<Json>, parse: Json -> Option<int>)
    ensures forall i, j :: 0 <= i < j < |Merged(existing, incoming, parse)| ==>
              && IsValidSpoolLike(Merged(existing, incoming, parse)[i])
              && IsValidSpoolLike(Merged(existing, incoming, parse)[j])
              && IdOf(Merged(existing, incoming, parse)[i]) != IdOf(Merged(existing, incoming, parse)[j])
  {
    var xs := existing + incoming;
    var t := PutAll(Table([], map[]), xs);
    PutAllOk(xs);
    var v := Values(t);
    var r := Merged(existing, incoming, parse);
    var f := (x: Json) => if IsValidSpoolLike(x) then IdOf(x) else [];
    assert DistinctBy(v, f) by {
      forall i, j | 0 <= i < j < |v| ensures f(v[i]) != f(v[j]) {
        assert v[i] == t.records[t.order[i]];
        assert v[j] == t.records[t.order[j]];
      }
    }
    SortKeepsDistinct(v, NewestFirst(parse), f);
    forall i | 0 <= i < |r| ensures IsValidSpoolLike(r[i]) {
      MergedMembers(existing, incoming, parse, r[i]);
    }
  }

  /** The merge lists the newest record first. */
  lemma MergedNewestFirst(existing: seq<Json>, incoming: seq<Json>, parse: Json -> Option<int>)
    ensures forall i, j :: 0 <= i < j < |Merged(existing, incoming, parse)| ==>
              Recency(Merged(existing, incoming, parse)[i], parse) >= Recency(Merged(existing, incoming, parse)[j], parse)
  {
    var xs := existing + incoming;
    PutAllOk(xs);
    var v := Values(PutAll(Table([], map[]), xs));
    SortBySorted(v, NewestFirst(parse));
  }

  // ---- Import.

  /** What the file input delivers: nothing chosen, a file that is not JSON, or the parsed value. */
  datatype FilePick = NoFile | Unreadable | Picked(value: Json)

  /** How an import ends: an alert and no change, no change, or the data handed to `onApply`. */
  datatype ImportOutcome =
    | Ignored          // no file was chosen
    | ReadFailed       // "Could not read that file as JSON."
    | Rejected         // "Invalid backup file."
    | NoMode           // the mode prompt was not answered with R or M
    | NotConfirmed     // the confirmation was declined
    | Replaced(data: Json)
    | Combined(data: Json)

  /** `(prompt(...) || "").trim().toUpperCase()`; None stands for a cancelled prompt. */
  function Mode(answer: Option<string>): string {
    Upper(Trim(answer.GetOr("")))
  }

  /** The mode prompt accepts exactly the answers that are one letter, in either case, between blanks. */
  lemma ModeOfAnswer(s: string)
    ensures Mode(Some(s)) == "R" <==> Trim(s) == "R" || Trim(s) == "r"
    ensures Mode(Some(s)) == "M" <==> Trim(s) == "M" || Trim(s) == "m"
  {
    var t := Trim(s);
    UpperFacts(t);
    if |t| == 1 {
      assert t == [t[0]];
      assert Upper(t) == [UpperChar(t[0])];
    }
  }

  lemma ModeOfCancel()
    ensures Mode(None) == []
  {
  }

  /**
   * `handleFilePick` with the user's answers as inputs: `answer` to the mode prompt
   * and `confirmed` to the confirmation that follows it. `current` is the data shown.
   */
  method HandleFilePick(current: AppData, pick: FilePick, answer: Option<string>, confirmed: bool,
                        parse: Json -> Option<int>) returns (o: ImportOutcome)
    ensures pick.NoFile? ==> o == Ignored
    ensures pick.Unreadable? ==> o == ReadFailed
    ensures pick.Picked? && !IsValidAppData(pick.value) ==> o == Rejected
    ensures pick.Picked? && IsValidAppData(pick.value) && Mode(answer) != "R" && Mode(answer) != "M" ==>
              o == NoMode
    ensures pick.Picked? && IsValidAppData(pick.value) && Mode(answer) == "R" ==>
              o == if confirmed then Replaced(pick.value) else NotConfirmed
    ensures pick.Picked? && IsValidAppData(pick.value) && Mode(answer) == "M" ==>
              o == if confirmed then
                     Combined(JObj(map["version" := JNum(1.0),
                                       "spools" := JArr(Merged(SpoolsToJson(current.spools),
                                                                pick.value.fields["spools"].items, parse))]))
                   else NotConfirmed
  {
    if pick.NoFile? {
      return Ignored;
    }
    if pick.Unreadable? {
      return ReadFailed;
    }
    var parsed := pick.value;
    if !IsValidAppData(parsed) {
      return Rejected;
    }
    var choice := Upper(Trim(answer.GetOr("")));
    if choice != "R" && choice != "M" {
      return NoMode;
    }
    if choice == "R" {
      if !confirmed {
        return NotConfirmed;
      }
      return Replaced(parsed);
    }
    var mergedSpools := MergeById(SpoolsToJson(current.spools), parsed.fields["spools"].items, parse);
    if !confirmed {
      return NotConfirmed;
    }
    o := Combined(JObj(map["version" := JNum(1.0), "spools" := JArr(mergedSpools)]));
  }

  /** Whatever an import applies is itself a valid backup, and so passes the check `loadData` makes. */
  lemma ImportAppliesValidData(o: ImportOutcome, current: AppData, pick: FilePick, answer: Option<string>,
                               confirmed: bool, parse: Json -> Option<int>)
    requires pick.Picked? && IsValidAppData(pick.value)
    requires Mode(answer) == "M" && confirmed
    requires o == Combined(JObj(map["version" := JNum(1.0),
                                    "spools" := JArr(Merged(SpoolsToJson(current.spools),
                                                             pick.value.fields["spools"].items, parse))]))
    ensures IsValidAppData(o.data) && Storage.WellShaped(o.data)
    ensures forall x :: x in o.data.fields["spools"].items ==> IsValidSpoolLike(x)
  {
    MergedContents(SpoolsToJson(current.spools), pick.value.fields["spools"].items, parse);
  }

  // ---- Export.

  /** `String(n).padStart(2, "0")`. */
  function TwoDigits(n: nat): string {
    PadStart2(IntString(n))
  }

  lemma TwoDigitsValue(n: nat)
    requires n < 100
    ensures |TwoDigits(n)| == 2 && (forall i :: 0 <= i < 2 ==> IsDigit(TwoDigits(n)[i]))
    ensures DigitsValue(TwoDigits(n)) == n
  {
    DecimalRoundTrip(n);
    if n < 10 {
      assert TwoDigits(n) == "0" + Decimal(n);
      ZeroPrefixValue(Decimal(n));
    } else {
      assert |Decimal(n / 10)| == 1;
    }
  }

  /**
   * `3dspoolapp-backup-${yyyy}-${mm}-${dd}.json` for the local date with the given
   * full year, zero-based month and day of the month, as `Date` reports them.
   */
  function ExportFilename(year: int, monthIndex: nat, day: nat): string
    requires monthIndex < 12 && 1 <= day <= 31
  {
    "3dspoolapp-backup-" + IntString(year) + "-" + TwoDigits(monthIndex + 1) + "-" + TwoDigits(day) + ".json"
  }

  lemma IntStringInjective(a: int, b: int)
    ensures IntString(a) == IntString(b) ==> a == b
  {
    if IntString(a) == IntString(b) {
      if a >= 0 && b >= 0 {
        DecimalInjective(a, b);
      } else if a < 0 && b < 0 {
        assert Decimal(-a) == IntString(a)[1..];
        DecimalInjective(-a, -b);
      }
    }
  }

  lemma FilenameSlices(p: string, y: string, m: string, d: string)
    requires |p| == 18 && |m| == 2 && |d| == 2
    ensures var f := p + y + "-" + m + "-" + d + ".json"; var n := |y|;
      && |f| == n + 29
      && f[18..18 + n] == y
      && f[n + 19..n + 21] == m
      && f[n + 22..n + 24] == d
  {
  }

  /** Where the year, the month and the day sit in the file name. */
  lemma ExportFilenameParts(y: int, m: nat, d: nat)
    requires m < 12 && 1 <= d <= 31
    ensures var f := ExportFilename(y, m, d); var n := |IntString(y)|;
      && |f| == n + 29
      && f[18..18 + n] == IntString(y)
      && f[n + 19..n + 21] == TwoDigits(m + 1)
      && f[n + 22..n + 24] == TwoDigits(d)
  {
    TwoDigitsValue(m + 1);
    TwoDigitsValue(d);
    FilenameSlices("3dspoolapp-backup-", IntString(y), TwoDigits(m + 1), TwoDigits(d));
  }

  /** Equal names with two-character month and day fields have equal fields. */
  lemma FilenameFieldsInjective(p: string, y1: string, m1: string, d1: string, y2: string, m2: string, d2: string)
    requires |p| == 18 && |m1| == 2 && |d1| == 2 && |m2| == 2 && |d2| == 2
    requires p + y1 + "-" + m1 + "-" + d1 + ".json" == p + y2 + "-" + m2 + "-" + d2 + ".json"
    ensures y1 == y2 && m1 == m2 && d1 == d2
  {
    FilenameSlices(p, y1, m1, d1);
    FilenameSlices(p, y2, m2, d2);
  }

  lemma TwoDigitsInjective(a: nat, b: nat)
    requires a < 100 && b < 100
    ensures |TwoDigits(a)| == 2 && |TwoDigits(b)| == 2
    ensures TwoDigits(a) == TwoDigits(b) ==> a == b
  {
    TwoDigitsValue(a);
    TwoDigitsValue(b);
  }

  /** Equal file names come from equal dates. */
  lemma ExportFilenameInjective(y1: int, m1: nat, d1: nat, y2: int, m2: nat, d2: nat)
    requires m1 < 12 && 1 <= d1 <= 31 && m2 < 12 && 1 <= d2 <= 31
    requires ExportFilename(y1, m1, d1) == ExportFilename(y2, m2, d2)
    ensures y1 == y2 && m1 == m2 && d1 == d2
  {
    TwoDigitsInjective(m1 + 1, m2 + 1);
    TwoDigitsInjective(d1, d2);
    FilenameFieldsInjective("3dspoolapp-backup-", IntString(y1), TwoDigits(m1 + 1), TwoDigits(d1),
                            IntString(y2), TwoDigits(m2 + 1), TwoDigits(d2));
    IntStringInjective(y1, y2);
  }

  /** Backups taken on different days get different file names, and the name shows the date. */
  lemma ExportFilenameDeterminesDate(y1: int, m1: nat, d1: nat, y2: int, m2: nat, d2: nat)
    requires m1 < 12 && 1 <= d1 <= 31 && m2 < 12 && 1 <= d2 <= 31
    ensures ExportFilename(y1, m1, d1) == ExportFilename(y2, m2, d2) <==> y1 == y2 && m1 == m2 && d1 == d2
  {
    if ExportFilename(y1, m1, d1) == ExportFilename(y2, m2, d2) {
      ExportFilenameInjective(y1, m1, d1, y2, m2, d2);
    }
  }
}
