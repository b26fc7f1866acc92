/** `prepare_dashboard_data.py`: the municipal boundary layer gains two join
    keys, `csv_sigungu` (the municipality name, with the one rename 세종시 →
    세종특별자치시) and `csv_sido_sigungu` (province and that name, joined by a
    space), by column assignments on the layer in place; the province
    outline layer is the layer dissolved by province; and the duplicate
    report lists the `csv_sigungu` values that occur more than once. */
module JoinKeys {
  import opened Strings
  import opened Order

  /** A feature of the municipal layer as it is read. */
  datatype SggFeature = SggFeature(sido: string, sigungu: string, code: string, geom: set<nat>)

  const SejongShapeName: string := "세종시"
  const SejongTableName: string := "세종특별자치시"

  /** The `csv_sigungu` of a feature named `name`. */
  function CsvSigungu(name: string): (r: string)
    ensures r != name <==> name == SejongShapeName
  {
    if name == SejongShapeName then SejongTableName else name
  }

  /** The `csv_sido_sigungu` of a feature. */
  function CompositeKey(sido: string, csv: string): (r: string)
    ensures |r| == |sido| + 1 + |csv|
  {
    sido + " " + csv
  }

  /** A province name without a space can be read back from the composite
      key, so equal keys mean equal provinces and equal names: municipalities
      sharing a name in different provinces keep different keys. */
  lemma CompositeKeyDeterminesParts(s1: string, c1: string, s2: string, c2: string)
    requires ' ' !in s1 && ' ' !in s2
    requires CompositeKey(s1, c1) == CompositeKey(s2, c2)
    ensures s1 == s2 && c1 == c2
  {
    var k := CompositeKey(s1, c1);
    assert k[|s1|] == ' ' && k[..|s1|] == s1;
    assert CompositeKey(s2, c2)[|s2|] == ' ' && CompositeKey(s2, c2)[..|s2|] == s2;
    FirstIndexAt(k, ' ', |s1|);
    FirstIndexAt(k, ' ', |s2|);
    assert k[|s1| + 1..] == c1;
    assert CompositeKey(s2, c2)[|s2| + 1..] == c2;
  }

  /** The layer's columns after the `.loc` override: `cur` with every entry
      whose municipality name is 세종시 replaced. */
  function SejongOverride(cur: seq<string>, names: seq<string>): (r: seq<string>)
    requires |cur| == |names|
    ensures |r| == |cur|
    ensures forall i :: 0 <= i < |r| ==> r[i] == (if names[i] == SejongShapeName then SejongTableName else cur[i])
  {
    seq(|cur|, i requires 0 <= i < |cur| => if names[i] == SejongShapeName then SejongTableName else cur[i])
  }

  function CompositeKeys(sido: seq<string>, csv: seq<string>): (r: seq<string>)
    requires |sido| == |csv|
    ensures |r| == |sido| && forall i :: 0 <= i < |r| ==> r[i] == CompositeKey(sido[i], csv[i])
  {
    seq(|sido|, i requires 0 <= i < |sido| => CompositeKey(sido[i], csv[i]))
  }

  /** The municipal layer (`gdf`) as columns. The key columns are empty until
      they are assigned. */
  class MunicipalLayer {
    var sido: seq<string>
    var sigungu: seq<string>
    var code: seq<string>
    var geom: seq<set<nat>>
    var csvSigungu: seq<string>
    var csvSidoSigungu: seq<string>

    /** Every column has one entry per feature. */
    predicate Valid()
      reads this
    {
      |sigungu| == |sido| && |code| == |sido| && |geom| == |sido|
    }

    function Count(): nat
      reads this
    {
      |sido|
    }

    constructor(fs: seq<SggFeature>)
      ensures Valid() && Count() == |fs|
      ensures forall i :: 0 <= i < |fs| ==>
                sido[i] == fs[i].sido && sigungu[i] == fs[i].sigungu && code[i] == fs[i].code && geom[i] == fs[i].geom
      ensures csvSigungu == [] && csvSidoSigungu == []
    {
      sido := seq(|fs|, i requires 0 <= i < |fs| => fs[i].sido);
      sigungu := seq(|fs|, i requires 0 <= i < |fs| => fs[i].sigungu);
      code := seq(|fs|, i requires 0 <= i < |fs| => fs[i].code);
      geom := seq(|fs|, i requires 0 <= i < |fs| => fs[i].geom);
      csvSigungu := [];
      csvSidoSigungu := [];
    }

    /** `gdf["csv_sigungu"] = gdf["SIGUNGU_NM"]`. */
    method CopyNames()
      requires Valid()
      modifies this
      ensures Valid()
      ensures csvSigungu == sigungu
      ensures sido == old(sido) && sigungu == old(sigungu) && code == old(code) && geom == old(geom)
      ensures csvSidoSigungu == old(csvSidoSigungu)
    {
      csvSigungu := sigungu;
    }

    /** `gdf.loc[gdf["SIGUNGU_NM"] == "세종시", "csv_sigungu"] = "세종특별자치시"`,
        one matching row at a time. */
    method OverrideSejong()
      requires Valid() && |csvSigungu| == |sigungu|
      modifies this
      ensures Valid()
      ensures sido == old(sido) && sigungu == old(sigungu) && code == old(code) && geom == old(geom)
      ensures csvSigungu == SejongOverride(old(csvSigungu), sigungu)
      ensures csvSidoSigungu == old(csvSidoSigungu)
    {
      var i := 0;
      while i < |sigungu|
        invariant sido == old(sido) && sigungu == old(sigungu) && code == old(code) && geom == old(geom)
        invariant 0 <= i <= |sigungu| == |csvSigungu| == |old(csvSigungu)|
        invariant forall k :: 0 <= k < i ==> csvSigungu[k] == SejongOverride(old(csvSigungu), sigungu)[k]
        invariant forall k :: i <= k < |csvSigungu| ==> csvSigungu[k] == old(csvSigungu)[k]
        invariant csvSidoSigungu == old(csvSidoSigungu)
      {
        if sigungu[i] == SejongShapeName {
          csvSigungu := csvSigungu[i := SejongTableName];
        }
        i := i + 1;
      }
    }

    /** `gdf["csv_sido_sigungu"] = gdf["SIDO_NM"] + " " + gdf["csv_sigungu"]`. */
    method AddCompositeKey()
      requires Valid() && |csvSigungu| == |sido|
      modifies this
      ensures Valid()
      ensures sido == old(sido) && sigungu == old(sigungu) && code == old(code) && geom == old(geom)
      ensures csvSigungu == old(csvSigungu)
      ensures csvSidoSigungu == CompositeKeys(sido, csvSigungu)
    {
      csvSidoSigungu := CompositeKeys(sido, csvSigungu);
    }

    /** The three assignments in script order. Only the key columns change:
        province, name, code and geometry columns and the feature count stay
        as they were. */
    method PrepareKeys()
      requires Valid()
      modifies this
      ensures Valid() && Count() == old(Count())
      ensures sido == old(sido) && sigungu == old(sigungu) && code == old(code) && geom == old(geom)
      ensures |csvSigungu| == Count() && |csvSidoSigungu| == Count()
      ensures forall i :: 0 <= i < Count() ==> csvSigungu[i] == CsvSigungu(sigungu[i])
      ensures forall i :: 0 <= i < Count() ==> csvSidoSigungu[i] == CompositeKey(sido[i], CsvSigungu(sigungu[i]))
    {
      CopyNames();
      OverrideSejong();
      AddCompositeKey();
    }

    /** The features of the layer with their keys. */
    function Rows(): (r: seq<KeyedFeature>)
      requires Valid() && |csvSigungu| == Count() && |csvSidoSigungu| == Count()
      reads this
      ensures |r| == Count()
    {
      var s, n, c, g, k1, k2 := sido, sigungu, code, geom, csvSigungu, csvSidoSigungu;
      seq(|s|, i requires 0 <= i < |s| => KeyedFeature(s[i], n[i], c[i], g[i], k1[i], k2[i]))
    }
  }

  /** A feature of the written layer. */
  datatype KeyedFeature = KeyedFeature(sido: string, sigungu: string, code: string, geom: set<nat>,
                                       csvSigungu: string, csvSidoSigungu: string)

  function SidoOf(f: KeyedFeature): string {
    f.sido
  }

  function GeomOf(f: KeyedFeature): set<nat> {
    f.geom
  }

  /** `gdf_valid.dissolve(by="SIDO_NM").reset_index()` on a copy of the
      layer: one outline per province, in ascending name order, with the
      other columns of the province's first feature. */
  function ProvinceOutlines(rows: seq<KeyedFeature>): seq<Group<string, KeyedFeature>> {
    Dissolve(rows, SidoOf, GeomOf, StrLe)
  }

  /** Exactly one outline per distinct province name, in ascending order, and
      each outline covers exactly its province's features. */
  lemma ProvinceOutlinesExact(rows: seq<KeyedFeature>)
    ensures var o := ProvinceOutlines(rows);
      && NoDup(GroupKeys(o))
      && SortedBy(GroupKeys(o), StrLe)
      && (forall s :: s in GroupKeys(o) <==> exists i :: 0 <= i < |rows| && rows[i].sido == s)
      && (forall g, x :: 0 <= g < |o| && x in o[g].geom ==>
            exists i :: 0 <= i < |rows| && rows[i].sido == o[g].key && x in rows[i].geom)
  {
    var o := ProvinceOutlines(rows);
    StrLeTotalPreorder();
    DissolveSorted(rows, SidoOf, GeomOf, StrLe);
    forall s ensures s in GroupKeys(o) <==> exists i :: 0 <= i < |rows| && rows[i].sido == s {
      if exists i :: 0 <= i < |rows| && rows[i].sido == s {
        var i :| 0 <= i < |rows| && rows[i].sido == s;
        assert KeysOf(rows, SidoOf)[i] == s;
      }
    }
    forall g, x | 0 <= g < |o| && x in o[g].geom
      ensures exists i :: 0 <= i < |rows| && rows[i].sido == o[g].key && x in rows[i].geom
    {
      DissolveOnlyMembers(rows, SidoOf, GeomOf, StrLe, g, x);
    }
  }

  /** `StrLe` is a total preorder. */
  lemma StrLeTotalPreorder()
    ensures IsTotalPreorder(StrLe)
  {
    forall a: string, b: string ensures StrLe(a, b) || StrLe(b, a) {
      StrLeTotal(a, b);
    }
    forall a: string, b: string, c: string | StrLe(a, b) && StrLe(b, c) ensures StrLe(a, c) {
      StrLeTransitive(a, b, c);
    }
  }

  /** The duplicate-name report: the `Counter` keys, in first-appearance
      order, whose count exceeds one. */
  function DuplicateNames(names: seq<string>): (r: seq<string>)
    ensures NoDup(r)
    ensures forall n :: n in r <==> multiset(names)[n] > 1
  {
    var counts := multiset(names);
    FilterNoDup(Dedup(names), n => counts[n] > 1);
    Filter(Dedup(names), n => counts[n] > 1)
  }

  /** A name that occurs once or not at all is not reported. */
  lemma {:induction false} UniqueNamesNotReported(names: seq<string>, n: string)
    requires forall i, j :: 0 <= i < j < |names| && names[i] == n ==> names[j] != n
    ensures n !in DuplicateNames(names)
    decreases |names|
  {
    if |names| > 0 {
      var t := names[1..];
      assert names == [names[0]] + t;
      assert forall i, j :: 0 <= i < j < |t| && t[i] == n ==> t[j] != n by {
        forall i, j | 0 <= i < j < |t| && t[i] == n ensures t[j] != n {
          assert t[i] == names[i + 1] && t[j] == names[j + 1];
        }
      }
      UniqueNamesNotReported(t, n);
      if names[0] == n {
        assert n !in t by {
          forall j | 0 <= j < |t| ensures t[j] != n {
            assert t[j] == names[j + 1];
          }
        }
      }
    }
  }
}
