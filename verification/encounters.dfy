/**
 The data part of `buildEncounterUI`: raw location-area encounter records are
 flattened into one row per (location area, game version) block, grouped by
 version in input order, the versions sorted, and for the shown version the
 rows de-duplicated by area (first occurrence wins) and capped at 120.

 A JSON number that is missing, `null`, `NaN` or infinite is `None` here; a
 finite one is an integer.
 */
module Encounters {
  import opened Basics
  import opened Seqs
  import Text
  import Ordering

  /** One element of `encounter_details`: `method.name` (as `methodName`), `min_level`,
      `max_level`, `chance`. */
  datatype EncounterDetail = EncounterDetail(
    methodName: Option<string>,
    minLevel: Option<int>,
    maxLevel: Option<int>,
    chance: Option<int>)

  /** One element of `version_details`: `version.name` and `encounter_details`. */
  datatype VersionDetail = VersionDetail(version: Option<string>, details: Option<seq<EncounterDetail>>)

  /** One record of the encounters payload: `location_area.name` and `version_details`. */
  datatype LocationRecord = LocationRecord(area: Option<string>, versionDetails: Option<seq<VersionDetail>>)

  /** The summary row pushed for one version block; `None` is "unknown"
      (`Math.min()` of nothing is `Infinity`, which is not finite). */
  datatype Row = Row(area: string, methods: seq<string>, min: Option<int>, max: Option<int>, chance: Option<int>)

  /** A row tagged with its version name, in input order. */
  type Tagged = (string, Row)

  const DisplayCap: nat := 120
  const UnknownArea: string := "unknown-area"
  const UnknownVersion: string := "unknown"

  /** `x?.name || fallback`: a missing or empty name gives the fallback. */
  function NameOr(name: Option<string>, fallback: string): (r: string)
    ensures name.Some? && name.value != "" ==> r == name.value
    ensures name.None? || name.value == "" ==> r == fallback
  {
    match name
    case Some(n) => if n == "" then fallback else n
    case None => fallback
  }

  /** `details.map(ed => ed.method?.name).filter(Boolean)`. */
  function MethodNames(ds: seq<EncounterDetail>): (ms: seq<string>)
    decreases |ds|
  {
    if ds == [] then [] else NameOf(ds[0]) + MethodNames(ds[1..])
  }

  /** The method name one detail contributes: none when missing or empty. */
  function NameOf(d: EncounterDetail): seq<string> {
    match d.methodName
    case Some(m) => if m != "" then [m] else []
    case None => []
  }

  /** The smallest finite value, or `None` when there is none. */
  function MinFinite(xs: seq<Option<int>>): (r: Option<int>)
    ensures r.None? <==> forall i :: 0 <= i < |xs| ==> xs[i].None?
    ensures r.Some? ==> r in xs
    ensures r.Some? ==> forall i :: 0 <= i < |xs| && xs[i].Some? ==> r.value <= xs[i].value
    decreases |xs|
  {
    if xs == [] then None
    else
      var rest := MinFinite(xs[1..]);
      match xs[0]
      case None => rest
      case Some(v) => if rest.Some? && rest.value < v then rest else Some(v)
  }

  /** The largest finite value, or `None` when there is none. */
  function MaxFinite(xs: seq<Option<int>>): (r: Option<int>)
    ensures r.None? <==> forall i :: 0 <= i < |xs| ==> xs[i].None?
    ensures r.Some? ==> r in xs
    ensures r.Some? ==> forall i :: 0 <= i < |xs| && xs[i].Some? ==> xs[i].value <= r.value
    decreases |xs|
  {
    if xs == [] then None
    else
      var rest := MaxFinite(xs[1..]);
      match xs[0]
      case None => rest
      case Some(v) => if rest.Some? && rest.value > v then rest else Some(v)
  }

  function MinLevels(ds: seq<EncounterDetail>): seq<Option<int>> {
    seq(|ds|, i requires 0 <= i < |ds| => ds[i].minLevel)
  }

  function MaxLevels(ds: seq<EncounterDetail>): seq<Option<int>> {
    seq(|ds|, i requires 0 <= i < |ds| => ds[i].maxLevel)
  }

  function Chances(ds: seq<EncounterDetail>): seq<Option<int>> {
    seq(|ds|, i requires 0 <= i < |ds| => ds[i].chance)
  }

  /** The row pushed for one version block of a location area. */
  function MakeRow(area: string, vd: VersionDetail): Row {
    var ds := vd.details.OrDefault([]);
    Row(area, MethodNames(ds), MinFinite(MinLevels(ds)), MaxFinite(MaxLevels(ds)), MaxFinite(Chances(ds)))
  }

  function VersionBlocks(loc: LocationRecord): seq<VersionDetail> {
    loc.versionDetails.OrDefault([])
  }

  /** The rows of one location record, each tagged with its version. */
  function LocationRows(loc: LocationRecord): (ts: seq<Tagged>)
    ensures |ts| == |VersionBlocks(loc)|
  {
    var vds := VersionBlocks(loc);
    var area := NameOr(loc.area, UnknownArea);
    seq(|vds|, j requires 0 <= j < |vds| => (NameOr(vds[j].version, UnknownVersion), MakeRow(area, vds[j])))
  }

  /** The nested `for` loops: every version block of every record, in input order. */
  function AllRows(enc: seq<LocationRecord>): seq<Tagged>
    decreases |enc|
  {
    if enc == [] then [] else LocationRows(enc[0]) + AllRows(enc[1..])
  }

  function VersionOf(t: Tagged): string {
    t.0
  }

  function AreaOf(r: Row): string {
    r.area
  }

  /** The `byVersion` map: each row is appended to its version's list. */
  function Group(ts: seq<Tagged>): map<string, seq<Row>>
    decreases |ts|
  {
    if ts == [] then map[]
    else
      var m := Group(ts[..|ts| - 1]);
      var (v, r) := ts[|ts| - 1];
      m[v := (if v in m then m[v] else []) + [r]]
  }

  /** Reference definition: the rows of version `v`, in input order. */
  function RowsOf(ts: seq<Tagged>, v: string): seq<Row>
    decreases |ts|
  {
    if ts == [] then []
    else RowsOf(ts[..|ts| - 1], v) + (if ts[|ts| - 1].0 == v then [ts[|ts| - 1].1] else [])
  }

  /** The version names in the order `byVersion` first sees them. */
  function FirstSeenVersions(ts: seq<Tagged>): seq<string> {
    var firsts := DedupBy(ts, VersionOf);
    seq(|firsts|, i requires 0 <= i < |firsts| => firsts[i].0)
  }

  /** The first-seen versions are distinct and are exactly the versions of `ts`. */
  lemma FirstSeenVersionsFacts(ts: seq<Tagged>)
    ensures Distinct(FirstSeenVersions(ts))
    ensures forall v :: v in FirstSeenVersions(ts) <==> v in Keys(ts, VersionOf)
  {
    FirstSeenDistinct(ts);
    FirstSeenKeys(ts);
  }

  lemma FirstSeenDistinct(ts: seq<Tagged>)
    ensures Distinct(FirstSeenVersions(ts))
  {
    var firsts := DedupBy(ts, VersionOf);
    var ks := FirstSeenVersions(ts);
    forall i, j | 0 <= i < j < |ks| ensures ks[i] != ks[j] {
      assert ks[i] == VersionOf(firsts[i]) && ks[j] == VersionOf(firsts[j]);
    }
  }

  lemma FirstSeenKeys(ts: seq<Tagged>)
    ensures forall v :: v in FirstSeenVersions(ts) <==> v in Keys(ts, VersionOf)
  {
    var firsts := DedupBy(ts, VersionOf);
    var ks := FirstSeenVersions(ts);
    forall v ensures v in ks <==> v in Keys(firsts, VersionOf) {
      if v in ks {
        var i :| 0 <= i < |ks| && ks[i] == v;
        assert VersionOf(firsts[i]) == v;
      }
      if v in Keys(firsts, VersionOf) {
        var i :| 0 <= i < |firsts| && VersionOf(firsts[i]) == v;
        assert ks[i] == v;
      }
    }
  }

  /** Two sequences with the same multiset have the same elements. */
  lemma SameElements(a: seq<string>, b: seq<string>)
    requires multiset(a) == multiset(b)
    ensures forall v :: v in a <==> v in b
  {
    forall v ensures v in a <==> v in b {
      assert v in a <==> v in multiset(a);
      assert v in b <==> v in multiset(b);
    }
  }

  /** `Array.from(byVersion.keys()).sort(...)`: the versions in first-seen
      order, then sorted. */
  function VersionList(ts: seq<Tagged>): (vs: seq<string>)
    ensures Ordering.Sorted(vs)
    ensures forall v :: v in vs <==> v in Keys(ts, VersionOf)
  {
    var ks := FirstSeenVersions(ts);
    FirstSeenVersionsFacts(ts);
    var vs := Ordering.Sort(ks);
    SameElements(vs, ks);
    vs
  }

  /** What one version tab shows: the pre-de-duplication row count used in
      the header, the rows listed, and the "Showing 120 of M" note. */
  datatype VersionView = VersionView(areaCount: nat, shown: seq<Row>, more: Option<string>)

  /** The list part of `renderVersion(v)` for the version's rows. */
  function ListRows(rows: seq<Row>): VersionView {
    var unique := DedupBy(rows, AreaOf);
    var shown := if |unique| <= DisplayCap then unique else unique[..DisplayCap];
    var more := if |unique| > DisplayCap
                then Some("Showing 120 of " + Text.Decimal(|unique|) + " areas (to keep it fast).")
                else None;
    VersionView(|rows|, shown, more)
  }

  /** `renderVersion(v)`: `byVersion.get(v) || []`, listed. */
  function RenderVersion(groups: map<string, seq<Row>>, v: string): VersionView {
    ListRows(if v in groups then groups[v] else [])
  }

  /** The encounter panel: the version tabs in order, the active tab, and
      what the active tab shows. With no versions there is no active tab and
      nothing is listed. */
  datatype Panel = Panel(
    groups: map<string, seq<Row>>,
    versions: seq<string>,
    active: Option<string>,
    view: Option<VersionView>)

  function BuildPanel(enc: seq<LocationRecord>): Panel {
    PanelOf(AllRows(enc))
  }

  function PanelOf(ts: seq<Tagged>): Panel {
    var groups := Group(ts);
    var vs := VersionList(ts);
    if vs == [] then Panel(groups, vs, None, None)
    else Panel(groups, vs, Some(vs[0]), Some(RenderVersion(groups, vs[0])))
  }

  /** A click on the tab of version `v`. */
  function ClickTab(p: Panel, v: string): (q: Panel)
    requires v in p.versions
    ensures q.active == Some(v) && q.versions == p.versions
    ensures q.groups == p.groups && q.view == Some(RenderVersion(p.groups, v))
  {
    p.(active := Some(v), view := Some(RenderVersion(p.groups, v)))
  }

  // ---------------------------------------------------------------------
  // Display text of a row.

  /** `arr.join(", ")`. */
  function JoinComma(ss: seq<string>): string
    decreases |ss|
  {
    if ss == [] then [] else if |ss| == 1 then ss[0] else ss[0] + ", " + JoinComma(ss[1..])
  }

  function CapAll(ss: seq<string>): seq<string> {
    seq(|ss|, i requires 0 <= i < |ss| => Text.Cap(ss[i]))
  }

  function MethodText(ms: seq<string>): string {
    if |ms| > 0 then "Method: " + JoinComma(CapAll(ms)) else "Method: —"
  }

  function LevelText(min: Option<int>, max: Option<int>): string {
    if min.Some? && max.Some?
    then "Lv: " + Text.IntDecimal(min.value) + "-" + Text.IntDecimal(max.value)
    else "Lv: —"
  }

  function ChanceText(chance: Option<int>): string {
    if chance.Some? then "Chance: " + Text.IntDecimal(chance.value) + "%" else "Chance: —"
  }

  /** The two lines of a location row: `cap(area)` and the meta line. */
  datatype RowText = RowText(name: string, meta: string)

  function FormatRow(r: Row): RowText {
    RowText(Text.Cap(r.area), MethodText(r.methods) + " • " + LevelText(r.min, r.max) + " • " + ChanceText(r.chance))
  }

  // ---------------------------------------------------------------------
  // Properties.

  /** The methods listed are exactly the non-empty method names, in order. */
  lemma {:induction false} MethodNamesExact(ds: seq<EncounterDetail>)
    ensures forall m :: m in MethodNames(ds) <==>
              m != "" && exists i :: 0 <= i < |ds| && ds[i].methodName == Some(m)
    ensures |MethodNames(ds)| <= |ds|
    decreases |ds|
  {
    if ds != [] {
      MethodNamesExact(ds[1..]);
      forall m ensures m in MethodNames(ds) <==>
                m != "" && exists i :: 0 <= i < |ds| && ds[i].methodName == Some(m)
      {
        if m != "" && exists i :: 0 <= i < |ds| && ds[i].methodName == Some(m) {
          var i :| 0 <= i < |ds| && ds[i].methodName == Some(m);
          if i > 0 {
            assert ds[1..][i - 1].methodName == Some(m);
          }
        }
        if m in MethodNames(ds[1..]) {
          var i :| 0 <= i < |ds[1..]| && ds[1..][i].methodName == Some(m);
          assert ds[i + 1].methodName == Some(m);
        }
      }
    }
  }

  /** Method names are collected detail by detail: the list for two runs of
      details is the list for the first followed by the list for the second,
      so names keep the details' order and a name given by two details is
      listed twice. */
  lemma {:induction false} MethodNamesAppend(a: seq<EncounterDetail>, b: seq<EncounterDetail>)
    ensures MethodNames(a + b) == MethodNames(a) + MethodNames(b)
    decreases |a|
  {
    if a == [] {
      assert a + b == b;
    } else {
      assert (a + b)[0] == a[0] && (a + b)[1..] == a[1..] + b;
      MethodNamesAppend(a[1..], b);
      calc {
        MethodNames(a + b);
        NameOf(a[0]) + MethodNames(a[1..] + b);
        NameOf(a[0]) + (MethodNames(a[1..]) + MethodNames(b));
        (NameOf(a[0]) + MethodNames(a[1..])) + MethodNames(b);
      }
    }
  }

  /** Two "walk" details around one without a method give "Method: walk, walk": order and repeats are kept. */
  lemma MethodRepeatExample()
    ensures var walk := EncounterDetail(Some("walk"), None, None, None);
      var none := EncounterDetail(None, Some(2), Some(3), None);
      MethodText(MethodNames([walk, none, walk])) == "Method: walk, walk"
  {
    var walk := EncounterDetail(Some("walk"), None, None, None);
    var none := EncounterDetail(None, Some(2), Some(3), None);
    RepeatNames(walk, none);
    WalkWalkText();
  }

  lemma RepeatNames(walk: EncounterDetail, none: EncounterDetail)
    requires walk.methodName == Some("walk") && none.methodName.None?
    ensures MethodNames([walk, none, walk]) == ["walk", "walk"]
  {
    MethodNamesAppend([walk], [none, walk]);
    MethodNamesAppend([none], [walk]);
    assert [walk, none, walk] == [walk] + [none, walk];
    assert [none, walk] == [none] + [walk];
    assert MethodNames([walk]) == ["walk"] by {
      assert [walk][1..] == [];
    }
    assert MethodNames([none]) == [] by {
      assert [none][1..] == [];
    }
  }

  lemma WalkWalkText()
    ensures MethodText(["walk", "walk"]) == "Method: walk, walk"
  {
    assert Text.Cap("walk") == "walk" by {
      var c := Text.Cap("walk");
      assert forall i :: 0 <= i < 4 ==> "walk"[i] != '-';
      assert forall i :: 0 <= i < 4 ==> c[i] == "walk"[i];
    }
    assert CapAll(["walk", "walk"]) == ["walk", "walk"];
    assert JoinComma(["walk", "walk"]) == "walk, walk" by {
      assert ["walk", "walk"][1..] == ["walk"];
    }
  }

  /** "Method: —" is shown exactly when the row has no method name, or its
      only method name is itself "—". */
  lemma MethodTextDash(ms: seq<string>)
    ensures MethodText(ms) == "Method: —" <==> ms == [] || ms == ["—"]
  {
    if ms == ["—"] {
      assert Text.Cap("—") == "—";
      assert CapAll(ms) == ["—"];
    }
    if ms != [] && MethodText(ms) == "Method: —" {
      var cs := CapAll(ms);
      var j := JoinComma(cs);
      assert "Method: " + j == "Method: —";
      assert j == "—" by {
        assert j == ("Method: " + j)[8..];
      }
      assert j == cs[0] == Text.Cap(ms[0]);
      assert |ms[0]| == 1;
      assert ms[0][0] == '—' by {
        assert Text.Cap(ms[0])[0] == '—';
      }
      assert ms[0] == "—";
      assert ms == [ms[0]];
    }
  }

  /** A version block without encounter details shows as
      "Method: — • Lv: — • Chance: —" under its capped area name. */
  lemma FormatRowNoDetails(area: string, vd: VersionDetail)
    requires vd.details.None? || vd.details == Some([])
    ensures FormatRow(MakeRow(area, vd)) == RowText(Text.Cap(area), "Method: — • Lv: — • Chance: —")
  {
    assert vd.details.OrDefault([]) == [];
    assert MakeRow(area, vd) == Row(area, [], None, None, None);
    FormatEmptyRow(area);
  }

  lemma FormatEmptyRow(area: string)
    ensures FormatRow(Row(area, [], None, None, None)) == RowText(Text.Cap(area), "Method: — • Lv: — • Chance: —")
  {
    assert MethodText([]) == "Method: —";
    assert LevelText(None, None) == "Lv: —";
    assert ChanceText(None) == "Chance: —";
  }

  /** `byVersion` has a key exactly for each version seen, and its list for
      that version is the version's rows in input order. */
  lemma {:induction false} GroupIsFilter(ts: seq<Tagged>)
    ensures forall v :: v in Group(ts) <==> v in Keys(ts, VersionOf)
    ensures forall v :: v in Group(ts) ==> Group(ts)[v] == RowsOf(ts, v)
    ensures forall v :: v !in Group(ts) ==> RowsOf(ts, v) == []
    decreases |ts|
  {
    if ts != [] {
      var init := ts[..|ts| - 1];
      GroupIsFilter(init);
      var (w, r) := ts[|ts| - 1];
      forall v ensures v in Group(ts) <==> v in Keys(ts, VersionOf) {
        if v in Keys(init, VersionOf) {
          var i :| 0 <= i < |init| && VersionOf(init[i]) == v;
          assert VersionOf(ts[i]) == v;
        }
        if v in Keys(ts, VersionOf) && v != w {
          var i :| 0 <= i < |ts| && VersionOf(ts[i]) == v;
          assert VersionOf(init[i]) == v;
        }
        assert VersionOf(ts[|ts| - 1]) == w;
      }
    }
  }

  /** The version tabs: sorted without repeats, one per version seen in the
      input, and the active tab is the first one (none when there is none). */
  lemma PanelVersions(ts: seq<Tagged>)
    ensures var p := PanelOf(ts);
      && Ordering.Sorted(p.versions)
      && (forall v :: v in p.versions <==> exists k :: 0 <= k < |ts| && ts[k].0 == v)
      && (p.versions == [] <==> p.active.None?)
      && (p.versions != [] ==>
            && p.active == Some(p.versions[0])
            && p.view == Some(RenderVersion(p.groups, p.versions[0]))
            && (forall k :: 0 < k < |p.versions| ==> Ordering.Less(p.versions[0], p.versions[k])))
  {
    forall v ensures v in Keys(ts, VersionOf) <==> exists k :: 0 <= k < |ts| && ts[k].0 == v {
      if exists k :: 0 <= k < |ts| && ts[k].0 == v {
        var k :| 0 <= k < |ts| && ts[k].0 == v;
        assert VersionOf(ts[k]) == v;
      }
    }
  }

  /** Every row of `AllRows` comes from one version block of one record,
      tagged with that block's version and that record's area. */
  lemma {:induction false} AllRowsOrigin(enc: seq<LocationRecord>, k: nat)
    requires k < |AllRows(enc)|
    ensures exists i, j :: 0 <= i < |enc| && 0 <= j < |VersionBlocks(enc[i])|
              && AllRows(enc)[k] == LocationRows(enc[i])[j]
    decreases |enc|
  {
    var here := LocationRows(enc[0]);
    if k < |here| {
      assert AllRows(enc)[k] == here[k];
    } else {
      AllRowsOrigin(enc[1..], k - |here|);
      var i, j :| 0 <= i < |enc[1..]| && 0 <= j < |VersionBlocks(enc[1..][i])|
                  && AllRows(enc[1..])[k - |here|] == LocationRows(enc[1..][i])[j];
      assert enc[1..][i] == enc[i + 1];
    }
  }

  /** The number of version blocks of the records. */
  function BlockCount(enc: seq<LocationRecord>): nat
    decreases |enc|
  {
    if enc == [] then 0 else |VersionBlocks(enc[0])| + BlockCount(enc[1..])
  }

  lemma {:induction false} AllRowsAppend(a: seq<LocationRecord>, b: seq<LocationRecord>)
    ensures AllRows(a + b) == AllRows(a) + AllRows(b)
    ensures BlockCount(a + b) == BlockCount(a) + BlockCount(b)
    decreases |a|
  {
    if a == [] {
      assert a + b == b;
    } else {
      assert (a + b)[0] == a[0] && (a + b)[1..] == a[1..] + b;
      AllRowsAppend(a[1..], b);
      calc {
        AllRows(a + b);
        LocationRows(a[0]) + AllRows(a[1..] + b);
        LocationRows(a[0]) + (AllRows(a[1..]) + AllRows(b));
        (LocationRows(a[0]) + AllRows(a[1..])) + AllRows(b);
      }
    }
  }

  lemma {:induction false} AllRowsLength(enc: seq<LocationRecord>)
    ensures |AllRows(enc)| == BlockCount(enc)
    decreases |enc|
  {
    if enc != [] {
      AllRowsLength(enc[1..]);
    }
  }

  /** Every version block of every record yields exactly one row, and the
      rows come record by record and block by block: block `j` of record `i`
      is row `BlockCount(enc[..i]) + j`, and there are no other rows. */
  lemma AllRowsAt(enc: seq<LocationRecord>, i: nat, j: nat)
    requires i < |enc| && j < |VersionBlocks(enc[i])|
    ensures |AllRows(enc)| == BlockCount(enc)
    ensures BlockCount(enc[..i]) + j < BlockCount(enc[..i + 1]) <= BlockCount(enc)
    ensures AllRows(enc)[BlockCount(enc[..i]) + j] == LocationRows(enc[i])[j]
  {
    AllRowsLength(enc);
    AllRowsAtBounds(enc, i, j);
    AllRowsAtRow(enc, i, j);
  }

  lemma AllRowsAtBounds(enc: seq<LocationRecord>, i: nat, j: nat)
    requires i < |enc| && j < |VersionBlocks(enc[i])|
    ensures BlockCount(enc[..i]) + j < BlockCount(enc[..i + 1]) <= BlockCount(enc)
  {
    var pre, loc, post := enc[..i], enc[i], enc[i + 1..];
    assert enc == (pre + [loc]) + post;
    assert enc[..i + 1] == pre + [loc];
    AllRowsSplit(pre, loc, post);
  }

  lemma AllRowsAtRow(enc: seq<LocationRecord>, i: nat, j: nat)
    requires i < |enc| && j < |VersionBlocks(enc[i])|
    ensures BlockCount(enc[..i]) + j < |AllRows(enc)|
    ensures AllRows(enc)[BlockCount(enc[..i]) + j] == LocationRows(enc[i])[j]
  {
    var pre, loc, post := enc[..i], enc[i], enc[i + 1..];
    assert enc == pre + ([loc] + post);
    AllRowsLength(pre);
    AllRowsSplit(pre, loc, post);
    var a, b, c := AllRows(pre), LocationRows(loc), AllRows(post);
    MiddleAt(a, b, c, j);
  }

  /** Helper for `AllRowsAt`: the rows and blocks around one record. */
  lemma AllRowsSplit(pre: seq<LocationRecord>, loc: LocationRecord, post: seq<LocationRecord>)
    ensures AllRows(pre + ([loc] + post)) == AllRows(pre) + (LocationRows(loc) + AllRows(post))
    ensures BlockCount(pre + [loc]) == BlockCount(pre) + |VersionBlocks(loc)|
    ensures BlockCount((pre + [loc]) + post) == BlockCount(pre + [loc]) + BlockCount(post)
  {
    AllRowsAppend(pre, [loc] + post);
    AllRowsAppend([loc], post);
    AllRowsAppend(pre, [loc]);
    AllRowsAppend(pre + [loc], post);
    SingleRecord(loc);
  }

  /** Helper for `AllRowsAt`: indexing into the middle part of `a + (b + c)`. */
  lemma MiddleAt<T>(a: seq<T>, b: seq<T>, c: seq<T>, j: nat)
    requires j < |b|
    ensures (a + (b + c))[|a| + j] == b[j]
  {
  }

  lemma SingleRecord(loc: LocationRecord)
    ensures AllRows([loc]) == LocationRows(loc)
    ensures BlockCount([loc]) == |VersionBlocks(loc)|
  {
    assert [loc][1..] == [];
  }

  /** The listed rows: no area twice; each the first row of its area in
      input order; every area when at most 120 are distinct; at most 120 rows,
      with the "Showing 120 of M" note exactly when there are more; the
      header counts the rows before de-duplication. */
  lemma ListRowsFacts(rows: seq<Row>)
    ensures var view := ListRows(rows);
      var m := |DedupBy(rows, AreaOf)|;
      && view.areaCount == |rows|
      && DistinctKeys(view.shown, AreaOf)
      && IsSubseq(DedupBy(rows, AreaOf), rows)
      && view.shown == DedupBy(rows, AreaOf)[..|view.shown|]
      && (forall i :: 0 <= i < |view.shown| ==> IsFirstWithKey(view.shown[i], rows, AreaOf))
      && (m <= DisplayCap ==> Keys(view.shown, AreaOf) == Keys(rows, AreaOf))
      && |view.shown| == (if m <= DisplayCap then m else DisplayCap)
      && (view.more.Some? <==> m > DisplayCap)
      && (m > DisplayCap ==> view.more == Some("Showing 120 of " + Text.Decimal(m) + " areas (to keep it fast)."))
  {
    var view := ListRows(rows);
    var unique := DedupBy(rows, AreaOf);
    assert view.shown == unique[..|view.shown|];
    PrefixKeepsFirsts(rows, unique, |view.shown|);
  }

  /** Helper for `ListRowsFacts`: a prefix of the de-duplicated rows is
      still free of repeated areas and made of first rows. */
  lemma PrefixKeepsFirsts(rows: seq<Row>, unique: seq<Row>, n: nat)
    requires n <= |unique|
    requires DistinctKeys(unique, AreaOf)
    requires forall i :: 0 <= i < |unique| ==> IsFirstWithKey(unique[i], rows, AreaOf)
    ensures DistinctKeys(unique[..n], AreaOf)
    ensures forall i :: 0 <= i < n ==> IsFirstWithKey(unique[..n][i], rows, AreaOf)
  {
    var shown := unique[..n];
    forall i, j | 0 <= i < j < n ensures AreaOf(shown[i]) != AreaOf(shown[j]) {
      assert shown[i] == unique[i] && shown[j] == unique[j];
    }
    forall i | 0 <= i < n ensures IsFirstWithKey(shown[i], rows, AreaOf) {
      assert shown[i] == unique[i];
    }
  }

  /** The tab of version `v` lists the rows of `v` in input order. */
  lemma RenderVersionRows(ts: seq<Tagged>, v: string)
    ensures RenderVersion(Group(ts), v) == ListRows(RowsOf(ts, v))
  {
    GroupIsFilter(ts);
  }

  /** A version that has a tab has at least one row. */
  lemma {:induction false} RowsOfSeen(ts: seq<Tagged>, v: string, k: nat)
    requires k < |ts| && ts[k].0 == v
    ensures RowsOf(ts, v) != []
    decreases |ts|
  {
    if k < |ts| - 1 {
      RowsOfSeen(ts[..|ts| - 1], v, k);
    }
  }

  /** Clicking the tab of version `v` makes it active and lists the rows of
      `v` in input order, de-duplicated and capped; the header count is at
      least one. */
  lemma ClickTabShows(ts: seq<Tagged>, v: string)
    requires v in PanelOf(ts).versions
    ensures var q := ClickTab(PanelOf(ts), v);
      && q.active == Some(v)
      && q.view == Some(ListRows(RowsOf(ts, v)))
      && q.view.value.areaCount >= 1
  {
    PanelVersions(ts);
    var k :| 0 <= k < |ts| && ts[k].0 == v;
    RowsOfSeen(ts, v, k);
    RenderVersionRows(ts, v);
  }

  /** "Lv: a-b" appears only when both a finite minimum and a finite maximum
      level exist; otherwise "Lv: —". */
  lemma LevelShownIffFinite(area: string, vd: VersionDetail)
    ensures var ds := vd.details.OrDefault([]);
      var r := MakeRow(area, vd);
      && (LevelText(r.min, r.max) == "Lv: —" <==>
            (forall i :: 0 <= i < |ds| ==> ds[i].minLevel.None?)
            || (forall i :: 0 <= i < |ds| ==> ds[i].maxLevel.None?))
      && (r.min.Some? ==> forall i :: 0 <= i < |ds| && ds[i].minLevel.Some? ==> r.min.value <= ds[i].minLevel.value)
      && (r.max.Some? ==> forall i :: 0 <= i < |ds| && ds[i].maxLevel.Some? ==> ds[i].maxLevel.value <= r.max.value)
  {
    var ds := vd.details.OrDefault([]);
    var r := MakeRow(area, vd);
    if r.min.Some? && r.max.Some? {
      var t := LevelText(r.min, r.max);
      assert t[4] == Text.IntDecimal(r.min.value)[0];
      assert t != "Lv: —" by {
        assert "Lv: —"[4] == '—';
      }
    }
    assert forall i :: 0 <= i < |ds| ==> MinLevels(ds)[i] == ds[i].minLevel;
    assert forall i :: 0 <= i < |ds| ==> MaxLevels(ds)[i] == ds[i].maxLevel;
  }

  /** "Chance: c%" appears only when some chance is finite, with the largest. */
  lemma ChanceShownIffFinite(area: string, vd: VersionDetail)
    ensures var ds := vd.details.OrDefault([]);
      var r := MakeRow(area, vd);
      && (ChanceText(r.chance) == "Chance: —" <==> forall i :: 0 <= i < |ds| ==> ds[i].chance.None?)
      && (r.chance.Some? ==> forall i :: 0 <= i < |ds| && ds[i].chance.Some? ==> ds[i].chance.value <= r.chance.value)
  {
    var ds := vd.details.OrDefault([]);
    var r := MakeRow(area, vd);
    if r.chance.Some? {
      var t := ChanceText(r.chance);
      assert t[8] == Text.IntDecimal(r.chance.value)[0];
      assert t != "Chance: —" by {
        assert "Chance: —"[8] == '—';
      }
    }
    assert forall i :: 0 <= i < |ds| ==> Chances(ds)[i] == ds[i].chance;
  }

  /** Levels 5..7 and (non-finite)..9 display as "Lv: 5-9". */
  lemma LevelExample()
    ensures var vd := VersionDetail(Some("red"), Some([
              EncounterDetail(Some("walk"), Some(5), Some(7), Some(20)),
              EncounterDetail(Some("walk"), None, Some(9), Some(10))]));
      var r := MakeRow("route-1", vd);
      LevelText(r.min, r.max) == "Lv: 5-9"
  {
    var ds := [EncounterDetail(Some("walk"), Some(5), Some(7), Some(20)),
               EncounterDetail(Some("walk"), None, Some(9), Some(10))];
    assert MinLevels(ds) == [Some(5), None];
    assert MaxLevels(ds) == [Some(7), Some(9)];
    LevelBoundsExample();
    LevelTextExample();
  }

  lemma LevelTextExample()
    ensures LevelText(Some(5), Some(9)) == "Lv: 5-9"
  {
    assert Text.IntDecimal(5) == "5" && Text.IntDecimal(9) == "9";
  }

  lemma LevelBoundsExample()
    ensures MinFinite([Some(5), None]) == Some(5)
    ensures MaxFinite([Some(7), Some(9)]) == Some(9)
  {
  }

  /** Two records for the same area in the same version give one row: the
      first record's; the header still counts two. */
  lemma DuplicateAreaExample(a: VersionDetail, b: VersionDetail)
    requires a.version == Some("red") && b.version == Some("red")
    ensures var enc := [LocationRecord(Some("route-1"), Some([a])), LocationRecord(Some("route-1"), Some([b]))];
      var p := BuildPanel(enc);
      && p.active == Some("red")
      && p.view == Some(VersionView(2, [MakeRow("route-1", a)], None))
  {
    var enc := [LocationRecord(Some("route-1"), Some([a])), LocationRecord(Some("route-1"), Some([b]))];
    var ra, rb := MakeRow("route-1", a), MakeRow("route-1", b);
    assert AllRows(enc) == [("red", ra), ("red", rb)] by {
      assert AllRows(enc[1..][1..]) == [];
    }
    SameAreaPanel(ra, rb);
  }

  /** Two rows of one version with one area. */
  lemma SameAreaPanel(ra: Row, rb: Row)
    requires ra.area == rb.area
    ensures var p := PanelOf([("red", ra), ("red", rb)]);
      && p.active == Some("red")
      && p.view == Some(VersionView(2, [ra], None))
  {
    var ts := [("red", ra), ("red", rb)];
    SameAreaVersions(ra, rb);
    assert RowsOf(ts[..1], "red") == [ra] by {
      assert ts[..1][..|ts[..1]| - 1] == [];
    }
    assert RowsOf(ts, "red") == [ra, rb] by {
      assert ts[..|ts| - 1] == ts[..1];
    }
    RenderVersionRows(ts, "red");
    assert DedupFrom([ra, rb], AreaOf, {}) == [ra] by {
      assert [ra, rb][1..][1..] == [];
    }
  }

  lemma SameAreaVersions(ra: Row, rb: Row)
    ensures VersionList([("red", ra), ("red", rb)]) == ["red"]
  {
    var ts := [("red", ra), ("red", rb)];
    OnlyVersion(VersionList(ts), "red") by {
      forall v ensures v in VersionList(ts) <==> v == "red" {
        if v == "red" {
          assert VersionOf(ts[0]) == v;
        }
      }
    }
  }

  /** A sorted sequence whose only element is `v` is `[v]`. */
  lemma OnlyVersion(vs: seq<string>, v: string)
    requires Ordering.Sorted(vs)
    requires forall w :: w in vs <==> w == v
    ensures vs == [v]
  {
    assert v in vs;
    if |vs| > 1 {
      assert vs[0] in vs && vs[1] in vs;
      Ordering.LessIrreflexive(v);
    }
  }
}
