/** `process_shapefile.py`: the census region-code table is reduced to one
    lookup row per municipality (a numeric code and a target name that folds
    the districts of a city into the city), joined onto the boundary
    features, completed for features the table does not know, and dissolved
    into one region per (province, target name). A feature's geometry is
    represented by the set of source feature ids it covers. */
module RegionReconcile {
  import opened Wrappers
  import opened Strings
  import opened Numbers
  import opened Order

  // ---------------------------------------------------------------------
  // The lookup table.

  /** A row of the code table, every column read as text. */
  datatype CodeRow = CodeRow(sidoCode: string, sido: string, sigunguCode: string, sigunguName: string)

  /** Python's `str.zfill(width)`: '0's put in front up to `width`, after a
      leading sign when there is one; a string already `width` long is
      returned as it is. */
  function ZFill(s: string, width: nat): (r: string)
    ensures |r| == if |s| >= width then |s| else width
    ensures |s| >= width ==> r == s
  {
    if |s| >= width then s
    else
      var pad := seq(width - |s|, _ => '0');
      if |s| > 0 && (s[0] == '+' || s[0] == '-') then [s[0]] + pad + s[1..]
      else pad + s
  }

  /** Without a sign, the padding is all '0's in front of the string. */
  lemma ZFillUnsigned(s: string, width: nat)
    requires s == [] || (s[0] != '+' && s[0] != '-')
    ensures var r := ZFill(s, width);
      && EndsWith(r, s)
      && forall i :: 0 <= i < |r| - |s| ==> r[i] == '0'
  {
    var r := ZFill(s, width);
    if |s| < width {
      assert r[|r| - |s|..] == s;
    } else {
      assert r[|r| - |s|..] == r;
    }
  }

  /** Padding a digit string keeps its value. */
  lemma ZFillValue(s: string, width: nat)
    requires AllDigits(s)
    ensures AllDigits(ZFill(s, width)) && DigitsValue(ZFill(s, width)) == DigitsValue(s)
  {
    if |s| < width {
      var pad := seq(width - |s|, _ => '0');
      if |s| > 0 {
        assert IsDigit(s[0]);
      }
      assert ZFill(s, width) == pad + s;
      ZerosValue(pad);
      DigitsValueAppend(pad, s);
    }
  }

  /** `SIGUNGU_CD`: the province code followed by the municipality code
      padded to three characters. */
  function SgCode(c: CodeRow): string {
    c.sidoCode + ZFill(c.sigunguCode, 3)
  }

  /** With province codes of one length, equal region codes mean the same
      province code and the same municipality number. */
  lemma SgCodeDeterminesParts(a: CodeRow, b: CodeRow)
    requires |a.sidoCode| == |b.sidoCode|
    requires AllDigits(a.sigunguCode) && AllDigits(b.sigunguCode)
    requires SgCode(a) == SgCode(b)
    ensures a.sidoCode == b.sidoCode
    ensures DigitsValue(a.sigunguCode) == DigitsValue(b.sigunguCode)
  {
    var n := |a.sidoCode|;
    assert SgCode(a)[..n] == a.sidoCode && SgCode(b)[..n] == b.sidoCode;
    assert SgCode(a)[n..] == ZFill(a.sigunguCode, 3);
    assert SgCode(b)[n..] == ZFill(b.sigunguCode, 3);
    ZFillValue(a.sigunguCode, 3);
    ZFillValue(b.sigunguCode, 3);
  }

  /** `get_target_nm`: inside a province whose name contains '도', a
      "<city>시 <district>구" name becomes its first space-separated piece;
      every other name is only stripped. */
  function TargetName(name: string, sido: string): string {
    var nm := Strip(name);
    if (Contains(sido, "도") || Contains(sido, "특별자치도")) && Contains(nm, "시 ") && EndsWith(nm, "구")
    then Split(nm, ' ')[0]
    else nm
  }

  /** The test for '특별자치도' adds nothing to the test for '도'. */
  lemma SpecialProvinceIsProvince(sido: string)
    requires Contains(sido, "특별자치도")
    ensures Contains(sido, "도")
  {
    ContainsAt(sido, "특별자치도");
    var i :| OccursAt(sido, "특별자치도", i);
    assert sido[i + 4..i + 5] == "특별자치도"[4..5];
    assert OccursAt(sido, "도", i + 4);
    OccursContains(sido, "도", i + 4);
  }

  /** Districts of metropolitan and special cities, whose province names lack
      '도', are never folded. */
  lemma MetropolitanNotFolded(name: string, sido: string)
    requires !Contains(sido, "도")
    ensures TargetName(name, sido) == Strip(name)
  {
    if Contains(sido, "특별자치도") {
      SpecialProvinceIsProvince(sido);
    }
  }

  /** A name without a space (화성시, 남양주시) comes back stripped only. */
  lemma UnspacedNotFolded(name: string, sido: string)
    requires ' ' !in Strip(name)
    ensures TargetName(name, sido) == Strip(name)
  {
    if Contains(Strip(name), "시 ") {
      ContainsTransfersChars(Strip(name), "시 ", ' ');
    }
  }

  /** A folded name is the stripped name up to its first space, and it is
      strictly shorter. */
  lemma FoldedName(name: string, sido: string)
    requires Contains(sido, "도") && Contains(Strip(name), "시 ") && EndsWith(Strip(name), "구")
    ensures var nm := Strip(name);
      && ' ' in nm
      && TargetName(name, sido) == nm[..FirstIndex(nm, ' ')]
      && |TargetName(name, sido)| < |nm|
  {
    ContainsTransfersChars(Strip(name), "시 ", ' ');
  }

  /** A target name is its own target name when the only white space in the
      original name is the plain space. */
  lemma TargetNameFixedPoint(name: string, sido: string)
    requires forall i :: 0 <= i < |name| && IsSpace(name[i]) ==> name[i] == ' '
    ensures TargetName(TargetName(name, sido), sido) == TargetName(name, sido)
  {
    var nm := Strip(name);
    var r := TargetName(name, sido);
    StripIdempotent(name);
    if (Contains(sido, "도") || Contains(sido, "특별자치도")) && Contains(nm, "시 ") && EndsWith(nm, "구") {
      ContainsTransfersChars(nm, "시 ", ' ');
      var k := FirstIndex(nm, ' ');
      assert r == nm[..k];
      StripShape(name);
      assert forall i :: 0 <= i < |nm| && IsSpace(nm[i]) ==> nm[i] == ' ' by {
        forall i | 0 <= i < |nm| && IsSpace(nm[i]) ensures nm[i] == ' ' {
          var l, rr := StripParts(name);
          assert name[|l| + i] == nm[i];
        }
      }
      assert forall i :: 0 <= i < |r| ==> !IsSpace(r[i]) by {
        forall i | 0 <= i < |r| ensures !IsSpace(r[i]) {
          assert r[i] == nm[i] && nm[i] != ' ';
        }
      }
      StripOfStripped(r);
      UnspacedNotFolded(r, sido);
    }
  }

  /** A row of the frame merged into the boundaries: code, province and
      target name. */
  datatype Lookup = Lookup(code: string, sido: string, target: string)

  function LookupOf(c: CodeRow): Lookup {
    Lookup(SgCode(c), c.sido, TargetName(c.sigunguName, c.sido))
  }

  /** `df_sgg`: the distinct code rows, each with its code and target name. */
  function LookupTable(codes: seq<CodeRow>): (r: seq<Lookup>)
    ensures forall l :: l in r <==> exists c :: c in codes && l == LookupOf(c)
  {
    var d := Dedup(codes);
    var r := seq(|d|, i requires 0 <= i < |d| => LookupOf(d[i]));
    assert forall c :: c in codes ==> LookupOf(c) in r by {
      forall c | c in codes ensures LookupOf(c) in r {
        var i :| 0 <= i < |d| && d[i] == c;
        assert r[i] == LookupOf(c);
      }
    }
    r
  }

  // ---------------------------------------------------------------------
  // The left join and its completion.

  /** A boundary feature: its code, its own municipality name and the id of
      its geometry. */
  datatype Feature = Feature(id: nat, code: string, name: string)

  /** A row of `gdf_merged`: a feature with the lookup columns, absent when
      no lookup row has the feature's code. */
  datatype Joined = Joined(feature: Feature, sido: Option<string>, target: Option<string>)

  /** The lookup rows with code `code`, in table order. */
  function Matches(lookups: seq<Lookup>, code: string): (r: seq<Lookup>)
    ensures forall l :: l in r <==> l in lookups && l.code == code
    decreases |lookups|
  {
    if |lookups| == 0 then []
    else
      var rest := Matches(lookups[..|lookups| - 1], code);
      assert forall l :: l in lookups <==> l in lookups[..|lookups| - 1] || l == lookups[|lookups| - 1] by {
        assert lookups == lookups[..|lookups| - 1] + [lookups[|lookups| - 1]];
      }
      rest + (if lookups[|lookups| - 1].code == code then [lookups[|lookups| - 1]] else [])
  }

  function JoinedWith(f: Feature, l: Lookup): Joined {
    Joined(f, Some(l.sido), Some(l.target))
  }

  /** The rows a left join gives for one feature: one per matching lookup
      row, or the feature alone with empty lookup columns. */
  function JoinFeature(lookups: seq<Lookup>, f: Feature): (r: seq<Joined>)
    ensures |r| >= 1
  {
    var ms := Matches(lookups, f.code);
    if |ms| == 0 then [Joined(f, None, None)]
    else seq(|ms|, i requires 0 <= i < |ms| => JoinedWith(f, ms[i]))
  }

  /** `gdf.merge(df_sgg, on='SIGUNGU_CD', how='left')`: the features in
      order, each with its rows. */
  function LeftJoin(features: seq<Feature>, lookups: seq<Lookup>): seq<Joined>
    decreases |features|
  {
    if |features| == 0 then []
    else LeftJoin(features[..|features| - 1], lookups) + JoinFeature(lookups, features[|features| - 1])
  }

  /** A row a left join can produce for its feature: the feature with the
      values of a lookup row of its code or, when there is none, with empty
      lookup columns. */
  predicate JoinedRow(lookups: seq<Lookup>, j: Joined) {
    || (exists l :: l in lookups && l.code == j.feature.code && j == JoinedWith(j.feature, l))
    || ((forall l :: l in lookups ==> l.code != j.feature.code) && j == Joined(j.feature, None, None))
  }

  /** Every row of the join is some feature, either with the values of a
      lookup row of that feature's code or, when there is none, with empty
      lookup columns; and every feature has a row. */
  lemma {:induction false} LeftJoinRows(features: seq<Feature>, lookups: seq<Lookup>, j: Joined)
    ensures j in LeftJoin(features, lookups) <==> j.feature in features && JoinedRow(lookups, j)
    decreases |features|
  {
    if |features| > 0 {
      var p := features[..|features| - 1];
      var f := features[|features| - 1];
      LeftJoinRows(p, lookups, j);
      assert j.feature in features <==> j.feature in p || j.feature == f by {
        assert features == p + [f];
      }
      assert j in LeftJoin(features, lookups) <==> j in LeftJoin(p, lookups) || j in JoinFeature(lookups, f);
      JoinFeatureRows(lookups, f, j);
    }
  }

  /** The rows of one feature. */
  lemma JoinFeatureRows(lookups: seq<Lookup>, f: Feature, j: Joined)
    ensures j in JoinFeature(lookups, f) <==> j.feature == f && JoinedRow(lookups, j)
  {
    var ms := Matches(lookups, f.code);
    if |ms| > 0 {
      assert ms[0] in ms;
      if j in JoinFeature(lookups, f) {
        var i :| 0 <= i < |ms| && JoinFeature(lookups, f)[i] == j;
        assert ms[i] in ms;
      }
      if exists l :: l in lookups && l.code == f.code && j == JoinedWith(f, l) {
        var l :| l in lookups && l.code == f.code && j == JoinedWith(f, l);
        var i :| 0 <= i < |ms| && ms[i] == l;
        assert JoinFeature(lookups, f)[i] == j;
      }
    } else {
      assert forall l :: l in lookups ==> l.code != f.code;
    }
  }

  /** The left join keeps every feature. */
  lemma LeftJoinKeepsFeatures(features: seq<Feature>, lookups: seq<Lookup>, f: Feature)
    requires f in features
    ensures exists j :: j in LeftJoin(features, lookups) && j.feature == f
  {
    if forall l :: l in lookups ==> l.code != f.code {
      LeftJoinRows(features, lookups, Joined(f, None, None));
    } else {
      var l :| l in lookups && l.code == f.code;
      LeftJoinRows(features, lookups, JoinedWith(f, l));
    }
  }

  /** With at most one lookup row per code, the join has exactly one row per
      feature, in feature order. */
  lemma {:induction false} LeftJoinOneToOne(features: seq<Feature>, lookups: seq<Lookup>)
    requires forall a, b :: 0 <= a < b < |lookups| ==> lookups[a].code != lookups[b].code
    ensures |LeftJoin(features, lookups)| == |features|
    ensures forall i :: 0 <= i < |features| ==> LeftJoin(features, lookups)[i].feature == features[i]
    decreases |features|
  {
    if |features| > 0 {
      var p := features[..|features| - 1];
      var f := features[|features| - 1];
      LeftJoinOneToOne(p, lookups);
      MatchesDistinct(lookups, f.code);
      var one := JoinFeature(lookups, f);
      SingleJoinRow(lookups, f);
      var lp := LeftJoin(p, lookups);
      var r := LeftJoin(features, lookups);
      assert r == lp + one;
      assert |r| == |features|;
      forall i | 0 <= i < |features| ensures r[i].feature == features[i] {
        if i < |p| {
          assert r[i] == lp[i] && features[i] == p[i];
        } else {
          assert i == |lp| == |features| - 1;
          assert r[i] == one[0];
        }
      }
    }
  }

  /** A feature with at most one match has exactly one joined row. */
  lemma SingleJoinRow(lookups: seq<Lookup>, f: Feature)
    requires |Matches(lookups, f.code)| <= 1
    ensures |JoinFeature(lookups, f)| == 1 && JoinFeature(lookups, f)[0].feature == f
  {
  }

  /** Lookup rows with distinct codes match a code at most once. */
  lemma {:induction false} MatchesDistinct(lookups: seq<Lookup>, code: string)
    requires forall a, b :: 0 <= a < b < |lookups| ==> lookups[a].code != lookups[b].code
    ensures |Matches(lookups, code)| <= 1
    decreases |lookups|
  {
    if |lookups| > 0 {
      var p := lookups[..|lookups| - 1];
      var last := lookups[|lookups| - 1];
      MatchesDistinct(p, code);
      if last.code == code {
        assert forall a :: 0 <= a < |p| ==> p[a] == lookups[a];
        NoMatches(p, code);
      }
    }
  }

  /** No lookup row of the code: no match. */
  lemma {:induction false} NoMatches(lookups: seq<Lookup>, code: string)
    requires forall a :: 0 <= a < |lookups| ==> lookups[a].code != code
    ensures Matches(lookups, code) == []
    decreases |lookups|
  {
    if |lookups| > 0 {
      NoMatches(lookups[..|lookups| - 1], code);
    }
  }

  /** The `.loc` completion of one row: a row without a target name takes the
      feature's own name and the province '기타'. */
  function Fallback(j: Joined): Joined {
    if j.target.None? then Joined(j.feature, Some("기타"), Some(j.feature.name)) else j
  }

  /** The masked `.loc` assignments, applied to the merged rows in place. */
  method FillMissing(rows: array<Joined>)
    modifies rows
    ensures forall i :: 0 <= i < rows.Length ==> rows[i] == Fallback(old(rows[i]))
  {
    var i := 0;
    while i < rows.Length
      invariant 0 <= i <= rows.Length
      invariant forall k :: 0 <= k < i ==> rows[k] == Fallback(old(rows[k]))
      invariant forall k :: i <= k < rows.Length ==> rows[k] == old(rows[k])
    {
      if rows[i].target.None? {
        rows[i] := Joined(rows[i].feature, Some("기타"), Some(rows[i].feature.name));
      }
      i := i + 1;
    }
  }

  /** The merged rows after the completion. */
  function Completed(rows: seq<Joined>): (r: seq<Joined>)
    ensures |r| == |rows|
  {
    seq(|rows|, i requires 0 <= i < |rows| => Fallback(rows[i]))
  }

  /** After the completion every row of the join has a province and a target
      name: the lookup's for a matched feature, '기타' and the feature's own
      name for an unmatched one. The features are those of the join. */
  lemma CompletedRows(features: seq<Feature>, lookups: seq<Lookup>, i: nat)
    requires i < |Completed(LeftJoin(features, lookups))|
    ensures var j := Completed(LeftJoin(features, lookups))[i];
      && j.feature in features
      && j.sido.Some? && j.target.Some?
      && ((exists l :: l in lookups && l.code == j.feature.code && j.sido == Some(l.sido) && j.target == Some(l.target))
          || ((forall l :: l in lookups ==> l.code != j.feature.code)
              && j.sido == Some("기타") && j.target == Some(j.feature.name)))
  {
    var rows := LeftJoin(features, lookups);
    assert rows[i] in rows;
    LeftJoinRows(features, lookups, rows[i]);
  }

  // ---------------------------------------------------------------------
  // The dissolve.

  /** The dissolve key (`시도명칭`, `TARGET_NM`). */
  function KeyOf(j: Joined): (string, string) {
    (j.sido.GetOr(""), j.target.GetOr(""))
  }

  function GeomOf(j: Joined): set<nat> {
    {j.feature.id}
  }

  /** pandas' order on a pair of string keys: by the first, then the second. */
  function PairLe(a: (string, string), b: (string, string)): bool {
    StrLt(a.0, b.0) || (a.0 == b.0 && StrLe(a.1, b.1))
  }

  lemma PairLeTotalPreorder()
    ensures IsTotalPreorder(PairLe)
  {
    forall a: (string, string), b: (string, string) ensures PairLe(a, b) || PairLe(b, a) {
      StrLeTotal(a.0, b.0);
      StrLeTotal(a.1, b.1);
    }
    forall a: (string, string), b: (string, string), c: (string, string) | PairLe(a, b) && PairLe(b, c)
      ensures PairLe(a, c)
    {
      StrLeReflexive(a.0);
      StrLeReflexive(b.0);
      if a.0 != b.0 || b.0 != c.0 {
        StrLeTransitive(a.0, b.0, c.0);
        if a.0 == c.0 {
          StrLeAntisymmetric(a.0, b.0);
        }
      } else {
        StrLeTransitive(a.1, b.1, c.1);
      }
    }
  }

  /** The rows the group-by keeps: `dropna` drops rows with a missing key. */
  function KeyPresent(rows: seq<Joined>): (r: seq<Joined>)
    ensures forall j :: j in r <==> j in rows && j.sido.Some? && j.target.Some?
    decreases |rows|
  {
    if |rows| == 0 then []
    else
      var rest := KeyPresent(rows[1..]);
      assert forall j :: j in rows <==> j == rows[0] || j in rows[1..] by {
        assert rows == [rows[0]] + rows[1..];
      }
      (if rows[0].sido.Some? && rows[0].target.Some? then [rows[0]] else []) + rest
  }

  /** When no key is missing nothing is dropped. */
  lemma {:induction false} KeyPresentAll(rows: seq<Joined>)
    requires forall i :: 0 <= i < |rows| ==> rows[i].sido.Some? && rows[i].target.Some?
    ensures KeyPresent(rows) == rows
    decreases |rows|
  {
    if |rows| > 0 {
      KeyPresentAll(rows[1..]);
      assert rows == [rows[0]] + rows[1..];
    }
  }

  /** An output polygon: `SIDO_NM`, `SIGUNGU_NM`, `SIGUNGU_CD` and the
      united geometry. */
  datatype Region = Region(sido: string, name: string, code: string, geom: set<nat>)

  function RegionOf(g: Group<(string, string), Joined>): Region {
    Region(g.key.0, g.key.1, g.first.feature.code, g.geom)
  }

  /** `dissolve(by=['시도명칭', 'TARGET_NM'])` followed by the column selection
      and the renaming. */
  function DissolveRegions(rows: seq<Joined>): (r: seq<Region>)
    ensures |r| == |Dissolve(KeyPresent(rows), KeyOf, GeomOf, PairLe)|
  {
    var gs := Dissolve(KeyPresent(rows), KeyOf, GeomOf, PairLe);
    seq(|gs|, i requires 0 <= i < |gs| => RegionOf(gs[i]))
  }

  /** The whole script, from the code table and the boundary features to the
      dissolved regions. */
  function ProcessShapes(codes: seq<CodeRow>, features: seq<Feature>): seq<Region> {
    DissolveRegions(Completed(LeftJoin(features, LookupTable(codes))))
  }

  /** A row has both lookup columns or neither. */
  predicate Paired(j: Joined) {
    j.sido.Some? <==> j.target.Some?
  }

  /** The join's rows are paired: both columns come from one lookup row. */
  lemma JoinRowsPaired(features: seq<Feature>, lookups: seq<Lookup>)
    ensures forall i :: 0 <= i < |LeftJoin(features, lookups)| ==> Paired(LeftJoin(features, lookups)[i])
  {
    var rows := LeftJoin(features, lookups);
    forall i | 0 <= i < |rows| ensures Paired(rows[i]) {
      assert rows[i] in rows;
      LeftJoinRows(features, lookups, rows[i]);
    }
  }

  /** Completing paired rows leaves no key missing, so the group-by drops
      nothing. */
  lemma CompletedKeysPresent(rows: seq<Joined>)
    requires forall i :: 0 <= i < |rows| ==> Paired(rows[i])
    ensures KeyPresent(Completed(rows)) == Completed(rows)
  {
    KeyPresentAll(Completed(rows));
  }

  /** One output per distinct (province, target name) pair, in ascending pair
      order, and no pair twice. */
  lemma RegionsDistinct(rows: seq<Joined>, g: nat, h: nat)
    requires g < h < |DissolveRegions(rows)|
    ensures var r := DissolveRegions(rows);
      PairLe((r[g].sido, r[g].name), (r[h].sido, r[h].name)) && (r[g].sido, r[g].name) != (r[h].sido, r[h].name)
  {
    var gs := Dissolve(KeyPresent(rows), KeyOf, GeomOf, PairLe);
    PairLeTotalPreorder();
    DissolveSorted(KeyPresent(rows), KeyOf, GeomOf, PairLe);
    assert GroupKeys(gs)[g] == gs[g].key && GroupKeys(gs)[h] == gs[h].key;
  }

  /** Every completed feature lies in exactly one output region, the one of
      its (province, target name); its code is that of the group's first
      feature. */
  lemma FeatureInOneRegion(rows: seq<Joined>, i: nat)
    requires forall k :: 0 <= k < |rows| ==> Paired(rows[k])
    requires i < |rows|
    ensures var c := Completed(rows);
      var r := DissolveRegions(c);
      exists g :: 0 <= g < |r| && (r[g].sido, r[g].name) == KeyOf(c[i]) && c[i].feature.id in r[g].geom
        && forall h :: 0 <= h < |r| && (r[h].sido, r[h].name) == KeyOf(c[i]) ==> h == g
  {
    var c := Completed(rows);
    CompletedKeysPresent(rows);
    DissolveCovers(c, KeyOf, GeomOf, PairLe, i);
    var gs := Dissolve(c, KeyOf, GeomOf, PairLe);
    var g :| 0 <= g < |gs| && gs[g].key == KeyOf(c[i])
      && (forall h :: 0 <= h < |gs| && gs[h].key == KeyOf(c[i]) ==> h == g)
      && GeomOf(c[i]) <= gs[g].geom;
    var r := DissolveRegions(c);
    RegionAt(c, g);
    assert c[i].feature.id in GeomOf(c[i]);
    forall h | 0 <= h < |r| && (r[h].sido, r[h].name) == KeyOf(c[i]) ensures h == g {
      RegionAt(c, h);
    }
  }

  /** Output region `g` carries the key and the geometry of dissolved group `g`. */
  lemma RegionAt(rows: seq<Joined>, g: nat)
    requires g < |DissolveRegions(rows)|
    ensures var gs := Dissolve(KeyPresent(rows), KeyOf, GeomOf, PairLe);
      var r := DissolveRegions(rows)[g];
      (r.sido, r.name) == gs[g].key && r.geom == gs[g].geom
  {
  }

  /** A region's geometry holds only features of its own key, and its code is
      the code of the first such feature. */
  lemma RegionMembers(rows: seq<Joined>, g: nat, x: nat)
    requires forall k :: 0 <= k < |rows| ==> Paired(rows[k])
    requires g < |DissolveRegions(Completed(rows))|
    ensures var c := Completed(rows);
      var r := DissolveRegions(c)[g];
      && (x in r.geom <==> exists i :: 0 <= i < |c| && KeyOf(c[i]) == (r.sido, r.name) && c[i].feature.id == x)
      && r.code == c[FirstWithKey(c, KeyOf, (r.sido, r.name))].feature.code
  {
    var c := Completed(rows);
    CompletedKeysPresent(rows);
    var gs := Dissolve(c, KeyOf, GeomOf, PairLe);
    UnionOfGroup(c, KeyOf, GeomOf, gs[g].key, x);
  }

  /** The whole script keeps every boundary feature: each one lies in some
      output region, under its (province, target name) after the fallback. */
  lemma ProcessShapesCovers(codes: seq<CodeRow>, features: seq<Feature>, f: Feature)
    requires f in features
    ensures var r := ProcessShapes(codes, features);
      exists g :: 0 <= g < |r| && f.id in r[g].geom
  {
    var lookups := LookupTable(codes);
    var rows := LeftJoin(features, lookups);
    LeftJoinKeepsFeatures(features, lookups, f);
    var j :| j in rows && j.feature == f;
    var i :| 0 <= i < |rows| && rows[i] == j;
    JoinRowsPaired(features, lookups);
    var c := Completed(rows);
    var r := DissolveRegions(c);
    assert r == ProcessShapes(codes, features);
    FeatureInOneRegion(rows, i);
    var g :| 0 <= g < |r| && (r[g].sido, r[g].name) == KeyOf(c[i]) && c[i].feature.id in r[g].geom;
    assert c[i].feature == f;
  }

  /** The whole script invents no geometry: every id in an output region is
      that of a boundary feature whose completed key is the region's. */
  lemma ProcessShapesOnlyFeatures(codes: seq<CodeRow>, features: seq<Feature>, g: nat, x: nat)
    requires g < |ProcessShapes(codes, features)|
    requires x in ProcessShapes(codes, features)[g].geom
    ensures exists f :: f in features && f.id == x
  {
    var lookups := LookupTable(codes);
    var rows := LeftJoin(features, lookups);
    JoinRowsPaired(features, lookups);
    RegionMembers(rows, g, x);
    var c := Completed(rows);
    var i :| 0 <= i < |c| && c[i].feature.id == x;
    CompletedRows(features, lookups, i);
  }
}
