/** `find_city_with_gu.py`: from the region-code sheet (every cell read as
    text), the municipality names of the form "수원시 영통구" — a city
    followed by one of its administrative districts — are selected by the
    pattern `.+시\s+.+구$`, de-duplicated on (province, municipality code,
    municipality name), split at the first space into city and district,
    restricted to provinces whose name contains "도", and grouped under the
    key "[province] city" in an insertion-ordered dictionary whose size is
    the reported count. */
module CityGu {
  import opened Wrappers
  import opened Strings
  import opened Order

  /** A row of the code sheet after `astype(str)`. A missing cell has become
      the text "nan". */
  datatype CodeRow = CodeRow(sidoName: string, sigunguCode: string, sigunguName: string, other: seq<string>)

  /** The three columns `drop_duplicates` compares. */
  datatype Candidate = Candidate(sido: string, code: string, name: string)

  function TripleOf(r: CodeRow): Candidate {
    Candidate(r.sidoName, r.sigunguCode, r.sigunguName)
  }

  const Si: char := '시'
  const Gu: char := '구'

  // ---------------------------------------------------------------------
  // The pattern `.+시\s+.+구$`
  // ---------------------------------------------------------------------

  /** `re.search(r'.+시\s+.+구$', s)` finds a match whose "시" is at `i`, whose
      second `.+` starts at `w` and whose "구" is at `g`. `.` is any character
      but a newline, so the first `.+` needs just one such character before
      "시" (the search may start anywhere); `\s+` is the whitespace between;
      the second `.+` runs from `w` to the "구"; and `$` is the end of the
      text or the position before a final newline. */
  predicate PatternAt(s: string, i: int, w: int, g: int) {
    && 1 <= i && i + 1 < w < g < |s|
    && s[i - 1] != '\n' && s[i] == Si
    && (forall k :: i < k < w ==> IsSpace(s[k]))
    && (forall k :: w <= k < g ==> s[k] != '\n')
    && s[g] == Gu
    && (g == |s| - 1 || (g == |s| - 2 && s[|s| - 1] == '\n'))
  }

  /** `Series.str.contains(r'.+시\s+.+구$', regex=True)` on one cell. */
  predicate CityGuMatch(s: string) {
    exists i, w, g | 0 <= i < |s| && 0 <= w < |s| && 0 <= g < |s| :: PatternAt(s, i, w, g)
  }

  /** The pattern read as text: `pre` is what the search skips, `a` the
      first `.+`, `ws` the `\s+`, `b` the second `.+` and `post` what `$`
      allows after "구". */
  predicate Shaped(pre: string, a: string, ws: string, b: string, post: string) {
    && |a| > 0 && '\n' !in a
    && |ws| > 0 && AllSpace(ws)
    && |b| > 0 && '\n' !in b
    && (post == "" || post == "\n")
  }

  /** Text of that shape matches. */
  lemma MatchIntro(pre: string, a: string, ws: string, b: string, post: string)
    requires Shaped(pre, a, ws, b, post)
    ensures CityGuMatch(pre + a + [Si] + ws + b + [Gu] + post)
  {
    var s := pre + a + [Si] + ws + b + [Gu] + post;
    var i := |pre| + |a|;
    var w := i + 1 + |ws|;
    var g := w + |b|;
    assert s[i - 1] == a[|a| - 1];
    forall k | i < k < w ensures IsSpace(s[k]) {
      assert s[k] == ws[k - i - 1];
    }
    forall k | w <= k < g ensures s[k] != '\n' {
      assert s[k] == b[k - w];
    }
    assert s[i] == Si && s[g] == Gu;
    assert PatternAt(s, i, w, g);
  }

  /** A match splits the text into that shape. */
  lemma MatchParts(s: string, i: int, w: int, g: int)
    requires PatternAt(s, i, w, g)
    ensures s == s[..i - 1] + s[i - 1..i] + [Si] + s[i + 1..w] + s[w..g] + [Gu] + s[g + 1..]
    ensures Shaped(s[..i - 1], s[i - 1..i], s[i + 1..w], s[w..g], s[g + 1..])
  {
    assert s[..i - 1] + s[i - 1..i] == s[..i];
    assert s[..i] + [Si] == s[..i + 1];
    assert s[..i + 1] + s[i + 1..w] == s[..w];
    assert s[..w] + s[w..g] == s[..g];
    assert s[..g] + [Gu] == s[..g + 1];
    assert s[..g + 1] + s[g + 1..] == s;
    var ws := s[i + 1..w];
    forall k | 0 <= k < |ws| ensures IsSpace(ws[k]) {
      assert ws[k] == s[i + 1 + k];
    }
    var b := s[w..g];
    forall k | 0 <= k < |b| ensures b[k] != '\n' {
      assert b[k] == s[w + k];
    }
    if g == |s| - 2 {
      assert s[g + 1..] == [s[|s| - 1]];
    }
  }

  /** Text with no "시" never matches; missing names, read as "nan", are
      among them. */
  lemma NoSiNoMatch(s: string)
    requires Si !in s
    ensures !CityGuMatch(s)
  {
    forall i, w, g | 0 <= i < |s| && 0 <= w < |s| && 0 <= g < |s| ensures !PatternAt(s, i, w, g) {
      assert s[i] in s;
    }
  }

  lemma MissingNeverMatches()
    ensures !CityGuMatch("nan")
  {
    NoSiNoMatch("nan");
  }

  /** Text with no whitespace never matches: "수원시영통구" is not selected. */
  lemma NoSpaceNoMatch(s: string)
    requires forall k :: 0 <= k < |s| ==> !IsSpace(s[k])
    ensures !CityGuMatch(s)
  {
    forall i, w, g | 0 <= i < |s| && 0 <= w < |s| && 0 <= g < |s| ensures !PatternAt(s, i, w, g) {
      if 1 <= i && i + 1 < w {
        assert !IsSpace(s[i + 1]);
      }
    }
  }

  // ---------------------------------------------------------------------
  // Splitting a name into city and district
  // ---------------------------------------------------------------------

  datatype CityDistrict = CityDistrict(city: string, gu: string)

  /** `parts = city_gu.split(' ')`; with at least two parts, the city is the
      first and the district the rest re-joined with ' '. So the city is the
      text before the first space and the district everything after it, and
      a name without a space is dropped. */
  function SplitCityGu(name: string): (r: Option<CityDistrict>)
    ensures r.None? <==> ' ' !in name
    ensures r.Some? ==> ' ' !in r.value.city && name == r.value.city + " " + r.value.gu
  {
    var parts := Split(name, ' ');
    if |parts| >= 2 then
      SplitAtFirstSpace(name);
      assert name == parts[0] + " " + Join(" ", parts[1..]);
      Some(CityDistrict(parts[0], Join(" ", parts[1..])))
    else
      None
  }

  /** The first piece of `split(' ')` and the rest re-joined are the text
      before and after the first space. */
  lemma SplitAtFirstSpace(name: string)
    requires ' ' in name
    ensures ' ' !in Split(name, ' ')[0]
    ensures name == Split(name, ' ')[0] + " " + Join(" ", Split(name, ' ')[1..])
  {
    var i := FirstIndex(name, ' ');
    var head := Split(name, ' ')[0];
    var tail := Join(" ", Split(name, ' ')[1..]);
    SplitTail(name, ' ');
    assert head == name[..i];
    assert tail == name[i + 1..];
    AroundIndex(name, i);
  }

  /** The pattern admits any whitespace between city and district, but the
      split only cuts at ' ': a name separated by a tab is selected and then
      dropped. */
  lemma TabSeparatedDropped()
    ensures CityGuMatch("수원시\t영통구")
    ensures SplitCityGu("수원시\t영통구") == None
  {
    var name := "수원시\t영통구";
    assert PatternAt(name, 2, 4, 6);
    assert ' ' !in name;
  }

  // ---------------------------------------------------------------------
  // Province filter, key and label
  // ---------------------------------------------------------------------

  /** `"도" in sido or "특별자치도" in sido`. */
  predicate InProvince(sido: string) {
    Contains(sido, "도") || Contains(sido, "특별자치도")
  }

  /** The second test adds nothing: a name containing "특별자치도" contains "도". */
  lemma SpecialProvinceTestRedundant(sido: string)
    ensures InProvince(sido) <==> Contains(sido, "도")
  {
    if Contains(sido, "특별자치도") {
      assert '도' in "특별자치도";
      ContainsTransfersChars(sido, "특별자치도", '도');
      ContainsChar(sido, '도');
    }
  }

  /** The filter is a test for the character '도'. */
  lemma InProvinceChar(sido: string)
    ensures InProvince(sido) <==> '도' in sido
  {
    SpecialProvinceTestRedundant(sido);
    ContainsChar(sido, '도');
  }

  /** Provinces, special self-governing ones included, pass. */
  lemma ProvinceExamples()
    ensures InProvince("경기도") && InProvince("제주특별자치도")
  {
    InProvinceChar("경기도");
    InProvinceChar("제주특별자치도");
  }

  /** A special city does not: the districts of 서울특별시 are left out. */
  lemma SeoulExcluded()
    ensures !InProvince("서울특별시")
  {
    InProvinceChar("서울특별시");
  }

  /** `f"[{sido}] {city}"`. */
  function Key(sido: string, city: string): (r: string)
    ensures |r| == |sido| + |city| + 3
  {
    "[" + sido + "] " + city
  }

  /** `f"{gu} (코드: {code})"`. */
  function Label(gu: string, code: string): (r: string)
    ensures |r| == |gu| + |code| + 7
  {
    gu + " (코드: " + code + ")"
  }

  /** For a province name without "]", the key gives back province and city:
      cities of the same name in different provinces get different keys. */
  lemma KeyDeterminesParts(s1: string, c1: string, s2: string, c2: string)
    requires ']' !in s1 && ']' !in s2
    requires Key(s1, c1) == Key(s2, c2)
    ensures s1 == s2 && c1 == c2
  {
    var k := Key(s1, c1);
    assert k[1 + |s1|] == ']' && k[..1 + |s1|] == "[" + s1;
    assert Key(s2, c2)[1 + |s2|] == ']' && Key(s2, c2)[..1 + |s2|] == "[" + s2;
    FirstIndexAt(k, ']', 1 + |s1|);
    FirstIndexAt(k, ']', 1 + |s2|);
    assert k[1..1 + |s1|] == s1 && k[1..1 + |s2|] == s2;
    assert k[|s1| + 3..] == c1 && Key(s2, c2)[|s2| + 3..] == c2;
  }

  // ---------------------------------------------------------------------
  // Selection and de-duplication
  // ---------------------------------------------------------------------

  predicate NameMatches(r: CodeRow) {
    CityGuMatch(r.sigunguName)
  }

  /** `city_with_gu[['시도명칭', '시군구코드', '시군구명칭']].drop_duplicates()`:
      the triples of the matching rows, each once, in order of first
      occurrence. */
  function Candidates(rows: seq<CodeRow>): (r: seq<Candidate>)
    ensures NoDup(r)
  {
    Dedup(KeysOf(Filter(rows, NameMatches), TripleOf))
  }

  /** A triple is a candidate exactly when some row with a matching name
      carries it. */
  lemma CandidatesExact(rows: seq<CodeRow>, c: Candidate)
    ensures c in Candidates(rows) <==>
            exists k :: 0 <= k < |rows| && CityGuMatch(rows[k].sigunguName) && TripleOf(rows[k]) == c
  {
    var f := Filter(rows, NameMatches);
    var t := KeysOf(f, TripleOf);
    if c in t {
      var j :| 0 <= j < |t| && t[j] == c;
      assert f[j] in f;
      var k :| 0 <= k < |rows| && rows[k] == f[j];
    }
    if exists k :: 0 <= k < |rows| && CityGuMatch(rows[k].sigunguName) && TripleOf(rows[k]) == c {
      var k :| 0 <= k < |rows| && CityGuMatch(rows[k].sigunguName) && TripleOf(rows[k]) == c;
      assert rows[k] in rows && NameMatches(rows[k]);
      assert rows[k] in f;
      var j :| 0 <= j < |f| && f[j] == rows[k];
      assert t[j] == c;
    }
  }

  // ---------------------------------------------------------------------
  // Grouping
  // ---------------------------------------------------------------------

  /** One `append`: the district label `item` under key `key`. */
  datatype Entry = Entry(key: string, item: string)

  /** What one candidate contributes: nothing, or one label under its key. */
  function EntryOf(c: Candidate): (r: seq<Entry>)
    ensures |r| <= 1
    ensures |r| == 1 <==> ' ' in c.name && Contains(c.sido, "도")
  {
    SpecialProvinceTestRedundant(c.sido);
    match SplitCityGu(c.name)
    case None => []
    case Some(p) =>
      if InProvince(c.sido) then [Entry(Key(c.sido, p.city), Label(p.gu, c.code))] else []
  }

  /** Every label appended, in loop order. */
  function Entries(pairs: seq<Candidate>): seq<Entry> {
    FlatMap(pairs, EntryOf)
  }

  function KeyOf(e: Entry): string {
    e.key
  }

  /** The dictionary's keys in insertion order: each key when it is first
      appended to. */
  function GroupOrder(es: seq<Entry>): (r: seq<string>)
    ensures NoDup(r)
  {
    Dedup(KeysOf(es, KeyOf))
  }

  /** The list under key `k`: its labels in the order they were appended. */
  function LabelsUnder(es: seq<Entry>, k: string): (r: seq<string>)
    ensures |r| <= |es|
    decreases |es|
  {
    if |es| == 0 then []
    else
      var e := es[|es| - 1];
      LabelsUnder(es[..|es| - 1], k) + (if e.key == k then [e.item] else [])
  }

  lemma GroupOrderSnoc(es: seq<Entry>, e: Entry)
    ensures GroupOrder(es + [e]) ==
            if e.key in GroupOrder(es) then GroupOrder(es) else GroupOrder(es) + [e.key]
  {
    assert KeysOf(es + [e], KeyOf) == KeysOf(es, KeyOf) + [e.key];
    assert KeysOf(es + [e], KeyOf)[..|es|] == KeysOf(es, KeyOf);
  }

  lemma LabelsUnderSnoc(es: seq<Entry>, e: Entry, k: string)
    ensures LabelsUnder(es + [e], k) == LabelsUnder(es, k) + (if e.key == k then [e.item] else [])
  {
    assert (es + [e])[..|es|] == es;
  }

  /** `keys` and `groups` hold the dictionary built from the labels `es`. */
  ghost predicate Represents(keys: seq<string>, groups: map<string, seq<string>>, es: seq<Entry>) {
    && keys == GroupOrder(es)
    && (forall k :: k in groups <==> k in keys)
    && (forall k :: k in groups ==> groups[k] == LabelsUnder(es, k))
    && |groups| == |keys|
  }

  /** One `append` keeps the dictionary in step with the labels. */
  lemma AppendEntry(keys: seq<string>, groups: map<string, seq<string>>, es: seq<Entry>, e: Entry,
                    keys': seq<string>, groups': map<string, seq<string>>)
    requires Represents(keys, groups, es)
    requires keys' == if e.key in groups then keys else keys + [e.key]
    requires groups' == groups[e.key := (if e.key in groups then groups[e.key] else []) + [e.item]]
    ensures Represents(keys', groups', es + [e])
  {
    GroupOrderSnoc(es, e);
    assert e.key in groups <==> e.key in keys;
    assert keys' == GroupOrder(es + [e]);
    assert forall k :: k in groups' <==> k in keys';
    if e.key !in groups {
      forall j | 0 <= j < |es| ensures es[j].key != e.key {
        assert KeysOf(es, KeyOf)[j] == es[j].key;
      }
      NoKeyNoLabels(es, e.key);
    }
    forall k | k in groups' ensures groups'[k] == LabelsUnder(es + [e], k) {
      LabelsUnderSnoc(es, e, k);
    }
  }

  /** A key that was never appended to has no labels. */
  lemma {:induction false} NoKeyNoLabels(es: seq<Entry>, k: string)
    requires forall j :: 0 <= j < |es| ==> es[j].key != k
    ensures LabelsUnder(es, k) == []
    decreases |es|
  {
    if |es| > 0 {
      NoKeyNoLabels(es[..|es| - 1], k);
    }
  }

  /** The dictionary as a value: its keys in insertion order and its map. */
  datatype Dict = Dict(keys: seq<string>, groups: map<string, seq<string>>)

  /** `if key not in grouped_result: grouped_result[key] = []`, then
      `grouped_result[key].append(...)`. */
  function Add(d: Dict, e: Entry): Dict {
    var seen := e.key in d.groups;
    Dict(if seen then d.keys else d.keys + [e.key],
         d.groups[e.key := (if seen then d.groups[e.key] else []) + [e.item]])
  }

  /** The dictionary after the appends `es`, in order. */
  function Built(es: seq<Entry>): Dict
    decreases |es|
  {
    if |es| == 0 then Dict([], map[]) else Add(Built(es[..|es| - 1]), es[|es| - 1])
  }

  /** The dictionary built from the appends holds exactly their keys and
      labels. */
  lemma {:induction false} BuiltRepresents(es: seq<Entry>)
    ensures Represents(Built(es).keys, Built(es).groups, es)
    decreases |es|
  {
    if |es| > 0 {
      var init := es[..|es| - 1];
      BuiltRepresents(init);
      var d := Built(init);
      AppendEntry(d.keys, d.groups, init, es[|es| - 1], Add(d, es[|es| - 1]).keys, Add(d, es[|es| - 1]).groups);
      assert es == init + [es[|es| - 1]];
    }
  }

  lemma EntriesSnoc(pairs: seq<Candidate>, i: nat)
    requires i < |pairs|
    ensures Entries(pairs[..i + 1]) == Entries(pairs[..i]) + EntryOf(pairs[i])
  {
    assert pairs[..i + 1] == pairs[..i] + [pairs[i]];
    FlatMapSnoc(pairs[..i], pairs[i], EntryOf);
  }

  lemma BuiltSnoc(es: seq<Entry>, e: Entry)
    ensures Built(es + [e]) == Add(Built(es), e)
  {
    assert (es + [e])[..|es|] == es;
  }

  /** The loop body's two tests decide what a triple contributes. */
  lemma EntryOfCases(c: Candidate)
    ensures SplitCityGu(c.name).Some? && InProvince(c.sido) ==>
            EntryOf(c) == [Entry(Key(c.sido, SplitCityGu(c.name).value.city), Label(SplitCityGu(c.name).value.gu, c.code))]
    ensures !(SplitCityGu(c.name).Some? && InProvince(c.sido)) ==> EntryOf(c) == []
  {
  }

  /** The loop over the de-duplicated triples: `grouped_result` as its keys
      in insertion order and its key-to-list map. Its keys are those of the
      labels appended, each once, in first-append order, and each list holds
      that key's labels in append order. */
  method GroupCities(pairs: seq<Candidate>) returns (keys: seq<string>, groups: map<string, seq<string>>)
    ensures keys == GroupOrder(Entries(pairs))
    ensures forall k :: k in groups <==> k in keys
    ensures forall k :: k in groups ==> groups[k] == LabelsUnder(Entries(pairs), k)
    ensures |groups| == |keys|
  {
    keys := [];
    groups := map[];
    var i := 0;
    while i < |pairs|
      invariant 0 <= i <= |pairs|
      invariant Dict(keys, groups) == Built(Entries(pairs[..i]))
    {
      var c := pairs[i];
      ghost var before := Entries(pairs[..i]);
      EntriesSnoc(pairs, i);
      EntryOfCases(c);
      var split := SplitCityGu(c.name);
      if split.Some? && InProvince(c.sido) {
        var key := Key(c.sido, split.value.city);
        var text := Label(split.value.gu, c.code);
        BuiltSnoc(before, Entry(key, text));
        var list := if key in groups then groups[key] else [];
        if key !in groups {
          keys := keys + [key];
        }
        groups := groups[key := list + [text]];
      } else {
        assert EntryOf(c) == [];
        assert before + [] == before;
      }
      i := i + 1;
    }
    assert pairs[..|pairs|] == pairs;
    BuiltRepresents(Entries(pairs));
  }

  /** A key is in the dictionary exactly when some candidate contributes a
      label under it. */
  lemma GroupKeysExact(pairs: seq<Candidate>, k: string)
    ensures k in GroupOrder(Entries(pairs)) <==>
            exists i, e :: 0 <= i < |pairs| && e in EntryOf(pairs[i]) && e.key == k
  {
    var es := Entries(pairs);
    KeyInOrder(es, k);
    if k in GroupOrder(es) {
      var j :| 0 <= j < |es| && es[j].key == k;
      FlatMapMembers(pairs, EntryOf, es[j]);
    }
    if exists i, e :: 0 <= i < |pairs| && e in EntryOf(pairs[i]) && e.key == k {
      var i, e :| 0 <= i < |pairs| && e in EntryOf(pairs[i]) && e.key == k;
      FlatMapMembers(pairs, EntryOf, e);
    }
  }

  lemma KeyInOrder(es: seq<Entry>, k: string)
    ensures k in GroupOrder(es) <==> exists j :: 0 <= j < |es| && es[j].key == k
  {
    var ks := KeysOf(es, KeyOf);
    assert k in GroupOrder(es) <==> k in ks;
    if k in ks {
      var j :| 0 <= j < |ks| && ks[j] == k;
      assert es[j].key == k;
    }
    if exists j :: 0 <= j < |es| && es[j].key == k {
      var j :| 0 <= j < |es| && es[j].key == k;
      assert ks[j] == k;
    }
  }

  /** A label is listed under `k` exactly when some candidate contributes it
      under `k`. */
  lemma {:induction false} LabelsUnderMembers(es: seq<Entry>, k: string, l: string)
    ensures l in LabelsUnder(es, k) <==> Entry(k, l) in es
    decreases |es|
  {
    if |es| > 0 {
      var init := es[..|es| - 1];
      LabelsUnderMembers(init, k, l);
      assert es == init + [es[|es| - 1]];
    }
  }

  lemma LabelsExact(pairs: seq<Candidate>, k: string, l: string)
    ensures l in LabelsUnder(Entries(pairs), k) <==>
            exists i :: 0 <= i < |pairs| && Entry(k, l) in EntryOf(pairs[i])
  {
    LabelsUnderMembers(Entries(pairs), k, l);
    FlatMapMembers(pairs, EntryOf, Entry(k, l));
  }

  /** Districts are listed in encounter order: the labels of earlier
      candidates come before those of later ones. */
  lemma {:induction false} LabelsInOrder(a: seq<Candidate>, b: seq<Candidate>, k: string)
    ensures LabelsUnder(Entries(a + b), k) == LabelsUnder(Entries(a), k) + LabelsUnder(Entries(b), k)
  {
    FlatMapAppend(a, b, EntryOf);
    LabelsUnderAppend(Entries(a), Entries(b), k);
  }

  lemma {:induction false} LabelsUnderAppend(x: seq<Entry>, y: seq<Entry>, k: string)
    ensures LabelsUnder(x + y, k) == LabelsUnder(x, k) + LabelsUnder(y, k)
    decreases |y|
  {
    if |y| == 0 {
      assert x + y == x;
    } else {
      var yi := y[..|y| - 1];
      assert (x + y)[..|x + y| - 1] == x + yi;
      LabelsUnderAppend(x, yi, k);
    }
  }

  /** Every key has at least one district. */
  lemma GroupsNonEmpty(pairs: seq<Candidate>, k: string)
    requires k in GroupOrder(Entries(pairs))
    ensures |LabelsUnder(Entries(pairs), k)| >= 1
  {
    GroupKeysExact(pairs, k);
    var i, e :| 0 <= i < |pairs| && e in EntryOf(pairs[i]) && e.key == k;
    LabelsExact(pairs, k, e.item);
  }

  /** The reported count, `len(grouped_result)`, is the number of distinct
      keys among the labels appended. */
  lemma CountIsDistinctKeys(pairs: seq<Candidate>)
    ensures |GroupOrder(Entries(pairs))| == |set e | e in Entries(pairs) :: e.key|
  {
    var es := Entries(pairs);
    var r := GroupOrder(es);
    assert (set x | x in r) == (set e | e in es :: e.key) by {
      forall x ensures x in r <==> x in KeysOf(es, KeyOf) { }
      forall x | x in KeysOf(es, KeyOf) ensures exists e :: e in es && e.key == x {
        var j :| 0 <= j < |es| && KeysOf(es, KeyOf)[j] == x;
        assert es[j] in es;
      }
      forall e | e in es ensures e.key in KeysOf(es, KeyOf) {
        var j :| 0 <= j < |es| && es[j] == e;
        assert KeysOf(es, KeyOf)[j] == e.key;
      }
    }
    NoDupSetSize(r);
  }

  /** "수원시 영통구" matches. */
  lemma SuwonMatches()
    ensures CityGuMatch("수원시 영통구")
  {
    assert PatternAt("수원시 영통구", 2, 4, 6);
  }

  /** "수원시 영통구" splits into the city 수원시 and the district 영통구. */
  lemma SuwonSplit()
    ensures SplitCityGu("수원시 영통구") == Some(CityDistrict("수원시", "영통구"))
  {
    var name := "수원시 영통구";
    FirstIndexAt(name, ' ', 3);
    assert name[..3] == "수원시" && name[4..] == "영통구";
    assert ' ' !in name[4..];
    assert Split(name[4..], ' ') == ["영통구"];
    var parts := Split(name, ' ');
    assert parts == ["수원시", "영통구"];
    assert parts[1..] == ["영통구"];
  }

  /** The candidate "수원시 영통구" of 경기도 is listed as 영통구 under "[경기도] 수원시". */
  lemma SuwonExample()
    ensures EntryOf(Candidate("경기도", "31014", "수원시 영통구")) == [Entry("[경기도] 수원시", "영통구 (코드: 31014)")]
  {
    var c := Candidate("경기도", "31014", "수원시 영통구");
    SuwonSplit();
    ProvinceExamples();
    SuwonText();
    EntryOfCases(c);
  }

  lemma SuwonText()
    ensures Key("경기도", "수원시") == "[경기도] 수원시"
    ensures Label("영통구", "31014") == "영통구 (코드: 31014)"
  {
  }
}
