/** `app.py`: the indicator table is fixed up once when the dashboard loads
    (the renamed province, the moved county 군위군, Sejong's province rows
    repeated as municipal rows, the `sido_sigungu` join key), and a handful
    of pure selection rules drive the widgets: the year options, the
    province highlight cache and the layer choice on hover, the region label
    and the reference-year text. */
module Dashboard {
  import opened Wrappers
  import opened Strings
  import opened Order
  import JoinKeys

  /** A row of `indicators_long.csv`. `other` holds the columns the load-time
      code does not touch, carried as they are. */
  datatype DashRow = DashRow(sido: string, sigungu: string, regionType: string, publishYear: int,
                             indicatorName: string, referenceYear: Option<string>, other: seq<string>)

  const OldJeonbuk: string := "전라북도"
  const NewJeonbuk: string := "전북특별자치도"
  const Gunwi: string := "군위군"
  const Daegu: string := "대구광역시"
  const Sejong: string := "세종특별자치시"
  const ProvinceLevel: string := "시도"
  const MunicipalLevel: string := "시군구"

  /** `replace({"전라북도": "전북특별자치도"})` on one value. */
  function RenameSido(s: string): (r: string)
    ensures r != s <==> s == OldJeonbuk
    ensures r != OldJeonbuk
  {
    if s == OldJeonbuk then NewJeonbuk else s
  }

  function Renamed(rows: seq<DashRow>): (r: seq<DashRow>)
    ensures |r| == |rows|
    ensures forall i :: 0 <= i < |r| ==> r[i] == rows[i].(sido := RenameSido(rows[i].sido))
  {
    seq(|rows|, i requires 0 <= i < |rows| => rows[i].(sido := RenameSido(rows[i].sido)))
  }

  /** `df.loc[df["sigungu"] == "군위군", "sido"] = "대구광역시"`. */
  function GunwiMoved(rows: seq<DashRow>): (r: seq<DashRow>)
    ensures |r| == |rows|
    ensures forall i :: 0 <= i < |r| ==> r[i] == if rows[i].sigungu == Gunwi then rows[i].(sido := Daegu) else rows[i]
  {
    seq(|rows|, i requires 0 <= i < |rows| => if rows[i].sigungu == Gunwi then rows[i].(sido := Daegu) else rows[i])
  }

  /** A row selected by the Sejong mask: province 세종특별자치시, level 시도. */
  predicate IsSejongProvinceRow(row: DashRow) {
    row.sido == Sejong && row.regionType == ProvinceLevel
  }

  function AsMunicipal(row: DashRow): DashRow {
    row.(regionType := MunicipalLevel)
  }

  /** The selected rows, copied and relabelled 시군구. */
  function SejongCopies(rows: seq<DashRow>): (r: seq<DashRow>)
    ensures |r| == CountWhere(rows, IsSejongProvinceRow)
    ensures forall x :: x in r <==> exists y :: y in rows && IsSejongProvinceRow(y) && x == AsMunicipal(y)
  {
    var picked := Filter(rows, IsSejongProvinceRow);
    var r := seq(|picked|, i requires 0 <= i < |picked| => AsMunicipal(picked[i]));
    assert forall x :: x in r ==> exists y :: y in rows && IsSejongProvinceRow(y) && x == AsMunicipal(y) by {
      forall x | x in r ensures exists y :: y in rows && IsSejongProvinceRow(y) && x == AsMunicipal(y) {
        var i :| 0 <= i < |r| && r[i] == x;
        assert picked[i] in picked;
      }
    }
    assert forall y :: y in rows && IsSejongProvinceRow(y) ==> AsMunicipal(y) in r by {
      forall y | y in rows && IsSejongProvinceRow(y) ensures AsMunicipal(y) in r {
        var i :| 0 <= i < |picked| && picked[i] == y;
        assert r[i] == AsMunicipal(y);
      }
    }
    r
  }

  /** The table after the three row fix-ups, in script order. */
  function Loaded(rows: seq<DashRow>): seq<DashRow> {
    var fixed := GunwiMoved(Renamed(rows));
    fixed + SejongCopies(fixed)
  }

  /** The `sido_sigungu` column of a table. */
  function CompositeKeysOf(rows: seq<DashRow>): (r: seq<string>)
    ensures |r| == |rows|
    ensures forall i :: 0 <= i < |r| ==> r[i] == JoinKeys.CompositeKey(rows[i].sido, rows[i].sigungu)
  {
    seq(|rows|, i requires 0 <= i < |rows| => JoinKeys.CompositeKey(rows[i].sido, rows[i].sigungu))
  }

  /** The module-level `df`, with the `sido_sigungu` column kept apart. */
  class IndicatorFrame {
    var rows: seq<DashRow>
    var sidoSigungu: seq<string>

    constructor(rs: seq<DashRow>)
      ensures rows == rs && sidoSigungu == []
    {
      rows := rs;
      sidoSigungu := [];
    }

    /** `df["sido"] = df["sido"].replace(...)`. */
    method RenameProvince()
      modifies this
      ensures rows == Renamed(old(rows))
      ensures sidoSigungu == old(sidoSigungu)
    {
      rows := Renamed(rows);
    }

    /** The `.loc` assignment for 군위군. */
    method MoveGunwi()
      modifies this
      ensures rows == GunwiMoved(old(rows))
      ensures sidoSigungu == old(sidoSigungu)
    {
      rows := GunwiMoved(rows);
    }

    /** `pd.concat([df, sejong], ignore_index=True)`. */
    method AppendSejongCopies()
      modifies this
      ensures rows == old(rows) + SejongCopies(old(rows))
      ensures sidoSigungu == old(sidoSigungu)
    {
      rows := rows + SejongCopies(rows);
    }

    /** `df["sido_sigungu"] = df["sido"] + " " + df["sigungu"]`. */
    method AddCompositeKey()
      modifies this
      ensures rows == old(rows)
      ensures sidoSigungu == CompositeKeysOf(rows)
    {
      sidoSigungu := CompositeKeysOf(rows);
    }

    /** The load-time statements in order. */
    method Load()
      modifies this
      ensures rows == Loaded(old(rows))
      ensures |sidoSigungu| == |rows|
      ensures forall i :: 0 <= i < |rows| ==> sidoSigungu[i] == JoinKeys.CompositeKey(rows[i].sido, rows[i].sigungu)
    {
      RenameProvince();
      MoveGunwi();
      AppendSejongCopies();
      AddCompositeKey();
    }
  }

  /** The fix-ups of one original row. */
  function FixedRow(row: DashRow): DashRow {
    if row.sigungu == Gunwi then row.(sido := Daegu) else row.(sido := RenameSido(row.sido))
  }

  /** The loaded table keeps every original row, fixed, in its place, and
      grows by exactly the number of Sejong province rows. */
  lemma LoadedShape(rows: seq<DashRow>)
    ensures var fixed := GunwiMoved(Renamed(rows));
      && |Loaded(rows)| == |rows| + CountWhere(fixed, IsSejongProvinceRow)
      && forall i :: 0 <= i < |rows| ==> Loaded(rows)[i] == FixedRow(rows[i])
  {
  }

  /** A copy comes from a selected row of the table it was taken from. */
  lemma CopyOrigin(fixed: seq<DashRow>, x: DashRow)
    requires x in SejongCopies(fixed)
    ensures exists i :: 0 <= i < |fixed| && IsSejongProvinceRow(fixed[i]) && x == AsMunicipal(fixed[i])
  {
    var y :| y in fixed && IsSejongProvinceRow(y) && x == AsMunicipal(y);
    var i :| 0 <= i < |fixed| && fixed[i] == y;
  }

  /** Every appended row is a 시군구 copy of a loaded Sejong province row. */
  lemma SejongCopiesSound(rows: seq<DashRow>)
    ensures var l := Loaded(rows);
      forall j :: |rows| <= j < |l| ==>
        l[j].sido == Sejong && l[j].regionType == MunicipalLevel
        && exists i :: 0 <= i < |rows| && IsSejongProvinceRow(l[i]) && l[j] == AsMunicipal(l[i])
  {
    var fixed := GunwiMoved(Renamed(rows));
    var copies := SejongCopies(fixed);
    var l := Loaded(rows);
    assert l == fixed + copies;
    forall j | |rows| <= j < |l|
      ensures exists i :: 0 <= i < |rows| && IsSejongProvinceRow(l[i]) && l[j] == AsMunicipal(l[i])
    {
      assert l[j] == copies[j - |rows|];
      CopyOrigin(fixed, l[j]);
      var i :| 0 <= i < |fixed| && IsSejongProvinceRow(fixed[i]) && l[j] == AsMunicipal(fixed[i]);
      assert l[i] == fixed[i];
    }
  }

  /** Every loaded Sejong province row has its 시군구 copy among the
      appended rows. */
  lemma SejongCopiesComplete(rows: seq<DashRow>)
    ensures var l := Loaded(rows);
      forall i :: 0 <= i < |rows| && IsSejongProvinceRow(l[i]) ==>
        exists j :: |rows| <= j < |l| && l[j] == AsMunicipal(l[i])
  {
    var fixed := GunwiMoved(Renamed(rows));
    var copies := SejongCopies(fixed);
    var l := Loaded(rows);
    forall i | 0 <= i < |rows| && IsSejongProvinceRow(l[i])
      ensures exists j :: |rows| <= j < |l| && l[j] == AsMunicipal(l[i])
    {
      assert l[i] == fixed[i] && fixed[i] in fixed;
      assert AsMunicipal(l[i]) in copies;
      var k :| 0 <= k < |copies| && copies[k] == AsMunicipal(l[i]);
      assert l[|rows| + k] == copies[k];
    }
  }

  /** After loading, no row carries the old name 전라북도 and every 군위군 row
      belongs to 대구광역시, the appended copies included. */
  lemma LoadedNames(rows: seq<DashRow>)
    ensures forall i :: 0 <= i < |Loaded(rows)| ==> Loaded(rows)[i].sido != OldJeonbuk
    ensures forall i :: 0 <= i < |Loaded(rows)| && Loaded(rows)[i].sigungu == Gunwi ==> Loaded(rows)[i].sido == Daegu
  {
    var fixed := GunwiMoved(Renamed(rows));
    var l := Loaded(rows);
    forall j | |rows| <= j < |l|
      ensures l[j].sido == Sejong && l[j].sigungu != Gunwi
    {
      assert l[j] in SejongCopies(fixed);
      var y :| y in fixed && IsSejongProvinceRow(y) && l[j] == AsMunicipal(y);
      var i :| 0 <= i < |fixed| && fixed[i] == y;
    }
  }

  /** The map matches a table row to a layer feature by equal keys
      (`featureidkey="properties.csv_sido_sigungu"`). With space-free
      province names this happens exactly when the provinces agree and the
      row's municipality is the feature's `csv_sigungu`. */
  lemma RowMatchesFeature(row: DashRow, f: JoinKeys.SggFeature)
    requires ' ' !in row.sido && ' ' !in f.sido
    ensures JoinKeys.CompositeKey(row.sido, row.sigungu) == JoinKeys.CompositeKey(f.sido, JoinKeys.CsvSigungu(f.sigungu))
            <==> row.sido == f.sido && row.sigungu == JoinKeys.CsvSigungu(f.sigungu)
  {
    if JoinKeys.CompositeKey(row.sido, row.sigungu) == JoinKeys.CompositeKey(f.sido, JoinKeys.CsvSigungu(f.sigungu)) {
      JoinKeys.CompositeKeyDeterminesParts(row.sido, row.sigungu, f.sido, JoinKeys.CsvSigungu(f.sigungu));
    }
  }

  // ----- Year options -----

  function IntLe(a: int, b: int): bool {
    a <= b
  }

  function YearOf(row: DashRow): int {
    row.publishYear
  }

  /** `sorted(df["publish_year"].unique())`. */
  function Years(rows: seq<DashRow>): (r: seq<int>)
    ensures forall y :: y in r <==> exists i :: 0 <= i < |rows| && rows[i].publishYear == y
    ensures forall i, j :: 0 <= i < j < |r| ==> r[i] < r[j]
  {
    var ys := KeysOf(rows, YearOf);
    var r := SortedDistinct(ys, IntLe);
    SortedDistinctSorted(ys, IntLe);
    forall y ensures y in r <==> exists i :: 0 <= i < |rows| && rows[i].publishYear == y {
      if exists i :: 0 <= i < |rows| && rows[i].publishYear == y {
        var i :| 0 <= i < |rows| && rows[i].publishYear == y;
        assert ys[i] == y;
      }
    }
    r
  }

  /** The dropdown values, `reversed(years)`: every publish year once, most
      recent first. */
  function YearOptions(rows: seq<DashRow>): (r: seq<int>)
    ensures forall y :: y in r <==> exists i :: 0 <= i < |rows| && rows[i].publishYear == y
    ensures forall i, j :: 0 <= i < j < |r| ==> r[i] > r[j]
  {
    var ys := Years(rows);
    var r := seq(|ys|, i requires 0 <= i < |ys| => ys[|ys| - 1 - i]);
    assert forall y :: y in r <==> y in ys by {
      forall y | y in ys ensures y in r {
        var k :| 0 <= k < |ys| && ys[k] == y;
        assert r[|ys| - 1 - k] == y;
      }
    }
    r
  }

  /** The initial selection `years[-1]`; an empty table has none (the
      indexing raises). */
  function DefaultYear(rows: seq<DashRow>): Option<int> {
    var ys := Years(rows);
    if |ys| == 0 then None else Some(ys[|ys| - 1])
  }

  /** The default is present exactly when the table has rows, is the latest
      publish year, and is the first option offered. */
  lemma DefaultYearIsLatest(rows: seq<DashRow>)
    ensures DefaultYear(rows).Some? <==> |rows| > 0
    ensures DefaultYear(rows).Some? ==>
      && (exists i :: 0 <= i < |rows| && rows[i].publishYear == DefaultYear(rows).value)
      && (forall i :: 0 <= i < |rows| ==> rows[i].publishYear <= DefaultYear(rows).value)
      && YearOptions(rows)[0] == DefaultYear(rows).value
  {
    var ys := Years(rows);
    if |rows| > 0 {
      assert rows[0].publishYear in ys;
      var y := ys[|ys| - 1];
      assert y in ys;
      LatestYear(rows);
      assert YearOptions(rows)[0] == y;
    }
  }

  /** The last of the sorted years bounds every publish year. */
  lemma LatestYear(rows: seq<DashRow>)
    requires |Years(rows)| > 0
    ensures forall i :: 0 <= i < |rows| ==> rows[i].publishYear <= Years(rows)[|Years(rows)| - 1]
  {
    var ys := Years(rows);
    forall i | 0 <= i < |rows| ensures rows[i].publishYear <= ys[|ys| - 1] {
      assert rows[i].publishYear in ys;
    }
  }

  // ----- Province highlight -----

  /** A feature of the province outline layer; `name` is its `SIDO_NM`
      property, absent in a feature without one. */
  datatype ProvinceFeature = ProvinceFeature(name: Option<string>, id: nat)

  /** A one-feature `FeatureCollection`. */
  datatype FeatureCollection = FeatureCollection(features: seq<ProvinceFeature>)

  /** `if _name:`: a missing or empty name is skipped. */
  predicate Cacheable(f: ProvinceFeature) {
    f.name.Some? && f.name.value != ""
  }

  /** The cache after the features of `fs`, one loop step per feature. */
  function CacheOf(fs: seq<ProvinceFeature>): map<string, FeatureCollection>
    decreases |fs|
  {
    if |fs| == 0 then map[]
    else
      var f := fs[|fs| - 1];
      var prior := CacheOf(fs[..|fs| - 1]);
      if Cacheable(f) then prior[f.name.value := FeatureCollection([f])] else prior
  }

  /** The loop that fills `_sido_geojson_cache`. */
  method BuildSidoCache(fs: seq<ProvinceFeature>) returns (cache: map<string, FeatureCollection>)
    ensures cache == CacheOf(fs)
  {
    cache := map[];
    var i := 0;
    while i < |fs|
      invariant 0 <= i <= |fs|
      invariant cache == CacheOf(fs[..i])
    {
      var f := fs[i];
      assert fs[..i + 1][..i] == fs[..i];
      if f.name.Some? && f.name.value != "" {
        cache := cache[f.name.value := FeatureCollection([f])];
      }
      i := i + 1;
    }
    assert fs[..i] == fs;
  }

  /** The cache has one entry per non-empty province name. */
  lemma {:induction false} CacheKeys(fs: seq<ProvinceFeature>, k: string)
    ensures k in CacheOf(fs) <==> exists i :: 0 <= i < |fs| && Cacheable(fs[i]) && fs[i].name.value == k
    decreases |fs|
  {
    if |fs| > 0 {
      var init := fs[..|fs| - 1];
      CacheKeys(init, k);
      assert forall i :: 0 <= i < |init| ==> init[i] == fs[i];
    }
  }

  /** The entry of a name holds the last feature of that name: a later
      feature overwrites an earlier one. */
  lemma {:induction false} CacheLast(fs: seq<ProvinceFeature>, k: string)
    requires k in CacheOf(fs)
    ensures exists i :: 0 <= i < |fs| && Cacheable(fs[i]) && fs[i].name.value == k
              && CacheOf(fs)[k] == FeatureCollection([fs[i]])
              && forall j :: i < j < |fs| ==> fs[j].name != Some(k)
    decreases |fs|
  {
    var init := fs[..|fs| - 1];
    var f := fs[|fs| - 1];
    if Cacheable(f) && f.name.value == k {
      assert CacheOf(fs)[k] == FeatureCollection([fs[|fs| - 1]]);
    } else {
      CacheLast(init, k);
      var i :| 0 <= i < |init| && Cacheable(init[i]) && init[i].name.value == k
        && CacheOf(init)[k] == FeatureCollection([init[i]])
        && forall j :: i < j < |init| ==> init[j].name != Some(k);
      assert fs[i] == init[i];
      assert forall j :: i < j < |init| ==> fs[j] == init[j];
    }
  }

  /** A point of the hover event; `customdata` is absent when the point
      has none. */
  datatype HoverPoint = HoverPoint(customdata: Option<seq<string>>)

  /** The hover event; `points` is absent when the event has no such key. */
  datatype HoverData = HoverData(points: Option<seq<HoverPoint>>)

  /** A line layer of the map: the grey province outlines, or the blue
      outline of one province. */
  datatype Layer = BaseOutlines | Highlight(source: FeatureCollection)

  /** `hover_data.get("points", [{}])[0].get("customdata")`, for an event
      with at least one point. */
  function FirstCustomData(hover: HoverData): Option<seq<string>>
    requires hover.points != Some([])
  {
    match hover.points
    case None => None
    case Some(ps) => ps[0].customdata
  }

  /** `highlight_sido_on_hover`: the map layers it sets, or `None` when the
      event has an empty `points` list (the indexing raises). No event means
      no `hover_data`. */
  function HoverLayers(hover: Option<HoverData>, cache: map<string, FeatureCollection>): (r: Option<seq<Layer>>)
    ensures r.None? <==> hover.Some? && hover.value.points == Some([])
    ensures r.Some? ==> 1 <= |r.value| <= 2 && r.value[0] == BaseOutlines
    ensures r.Some? && |r.value| == 2 <==>
      && hover.Some? && hover.value.points != Some([])
      && FirstCustomData(hover.value).Some? && |FirstCustomData(hover.value).value| >= 2
      && FirstCustomData(hover.value).value[0] in cache
    ensures r.Some? && |r.value| == 2 ==> r.value[1] == Highlight(cache[FirstCustomData(hover.value).value[0]])
  {
    match hover
    case None => Some([BaseOutlines])
    case Some(h) =>
      if h.points == Some([]) then None
      else
        var cd := FirstCustomData(h);
        if cd.None? || |cd.value| < 2 then Some([BaseOutlines])
        else if cd.value[0] in cache then Some([BaseOutlines, Highlight(cache[cd.value[0]])])
        else Some([BaseOutlines])
  }

  /** With the cache built from the outline layer, hovering over a region
      of a province highlights that province exactly when some outline
      feature carries its (non-empty) name, and then it is the last such
      feature that is drawn. */
  lemma HoverHighlightsProvince(fs: seq<ProvinceFeature>, sido: string, rest: seq<string>)
    ensures var r := HoverLayers(Some(HoverData(Some([HoverPoint(Some([sido] + rest))]))), CacheOf(fs));
      && r.Some?
      && (|r.value| == 2 <==> 1 <= |rest| && exists i :: 0 <= i < |fs| && Cacheable(fs[i]) && fs[i].name.value == sido)
      && (|r.value| == 2 ==> exists i :: 0 <= i < |fs| && r.value[1] == Highlight(FeatureCollection([fs[i]]))
                               && fs[i].name == Some(sido)
                               && forall j :: i < j < |fs| ==> fs[j].name != Some(sido))
  {
    CacheKeys(fs, sido);
    if sido in CacheOf(fs) {
      CacheLast(fs, sido);
    }
  }

  // ----- Sidebar text -----

  /** The region label of a clicked region. */
  function RegionLabel(sido: string, sigungu: string): (r: string)
    ensures r == sido <==> sido == sigungu
    ensures |r| >= |sido| && r[..|sido|] == sido
    ensures r != sido ==> r[|sido|..] == " - " + sigungu
  {
    if sido == sigungu then sido else sido + " - " + sigungu
  }

  const Dash: char := '—'
  const YearSuffix: char := '년'

  /** The reference-year text: the value with every trailing 년 removed, or
      a dash when the value is missing or "-". */
  function RefYearText(v: Option<string>): (r: string)
    ensures v.None? || v == Some("-") ==> r == [Dash]
    ensures v.Some? && v != Some("-") ==>
      && |r| <= |v.value| && v.value[..|r|] == r
      && (r == [] || r[|r| - 1] != YearSuffix)
      && forall k :: |r| <= k < |v.value| ==> v.value[k] == YearSuffix
  {
    match v
    case None => [Dash]
    case Some(s) => if s == "-" then [Dash] else RStripChar(s, YearSuffix)
  }
}
