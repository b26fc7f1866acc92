/** `download_nabis_index.py`, the parts that are string logic: the region
    name of a tree anchor (its text, else the percent-decoded second
    argument of the `selectGrid` call in its link), the test that picks a
    finished download out of the temporary folder, the destination path of
    a moved file, and the count of saved files that leaves out the temporary
    folder. */
module Downloader {
  import opened Wrappers
  import opened Strings
  import opened Order
  import Percent

  // ----- The `selectGrid` pattern -----

  /** The literal start of the pattern `selectGrid\("([^"]+)",\s*"([^"]+)"\)`. */
  const CallPrefix: string := "selectGrid(\""

  /** The length of the longest run of characters other than `"` from `p`:
      what `[^"]+` consumes, since the pattern needs a `"` right after it. */
  function NonQuoteRun(s: string, p: nat): (n: nat)
    requires p <= |s|
    ensures p + n <= |s|
    ensures p + n == |s| || s[p + n] == '"'
    decreases |s| - p
  {
    if p == |s| || s[p] == '"' then 0 else 1 + NonQuoteRun(s, p + 1)
  }

  /** The length of the longest run of whitespace from `p`: what `\s*`
      consumes, since no whitespace character is the `"` that follows. */
  function SpaceRun(s: string, p: nat): (n: nat)
    requires p <= |s|
    ensures p + n <= |s|
    ensures p + n == |s| || !IsSpace(s[p + n])
    decreases |s| - p
  {
    if p == |s| || !IsSpace(s[p]) then 0 else 1 + SpaceRun(s, p + 1)
  }

  /** The second group when the pattern matches at position `p`. The
      stages below follow the pattern from left to right. */
  function MatchAt(s: string, p: nat): Option<string>
    requires p <= |s|
  {
    if !OccursAt(s, CallPrefix, p) then None else AfterPrefix(s, p + |CallPrefix|)
  }

  /** From the first argument on: `([^"]+)",`. */
  function AfterPrefix(s: string, a: nat): Option<string>
    requires a <= |s|
  {
    var b := a + NonQuoteRun(s, a);
    if b == a || !OccursAt(s, "\",", b) then None else AfterComma(s, b + 2)
  }

  /** From after the comma: `\s*"`. */
  function AfterComma(s: string, c: nat): Option<string>
    requires c <= |s|
  {
    var d := c + SpaceRun(s, c);
    if d == |s| || s[d] != '"' then None else SecondArg(s, d + 1)
  }

  /** The second argument and the closing `")`. */
  function SecondArg(s: string, e: nat): Option<string>
    requires e <= |s|
  {
    var f := e + NonQuoteRun(s, e);
    if f == e || !OccursAt(s, "\")", f) then None else Some(s[e..f])
  }

  predicate QuoteFree(t: string) {
    forall k :: 0 <= k < |t| ==> t[k] != '"'
  }

  predicate Spaces(t: string) {
    forall k :: 0 <= k < |t| ==> IsSpace(t[k])
  }

  /** The text each stage covers. */
  function Closing(name: string): string {
    name + "\")"
  }

  function Quoted(ws: string, name: string): string {
    ws + ("\"" + Closing(name))
  }

  function AfterCode(code: string, ws: string, name: string): string {
    code + ("\"," + Quoted(ws, name))
  }

  /** The text a match covers, with its first argument, its separating
      whitespace and its second argument. */
  function CallText(code: string, ws: string, name: string): string {
    CallPrefix + AfterCode(code, ws, name)
  }

  /** The pattern matches at `p` with these parts. */
  predicate MatchesWith(s: string, p: nat, code: string, ws: string, name: string) {
    && code != [] && QuoteFree(code) && Spaces(ws) && name != [] && QuoteFree(name)
    && OccursAt(s, CallText(code, ws, name), p)
  }

  lemma NonQuoteRunExact(s: string, p: nat, n: nat)
    requires p + n < |s| && s[p + n] == '"'
    requires forall k :: p <= k < p + n ==> s[k] != '"'
    ensures NonQuoteRun(s, p) == n
    decreases n
  {
    if n > 0 {
      NonQuoteRunExact(s, p + 1, n - 1);
    }
  }

  lemma SpaceRunExact(s: string, p: nat, n: nat)
    requires p + n < |s| && !IsSpace(s[p + n])
    requires forall k :: p <= k < p + n ==> IsSpace(s[k])
    ensures SpaceRun(s, p) == n
    decreases n
  {
    if n > 0 {
      SpaceRunExact(s, p + 1, n - 1);
    }
  }

  /** An occurrence of a concatenation is an occurrence of each part, one
      after the other. */
  lemma OccursAtConcat(s: string, x: string, y: string, p: nat)
    ensures OccursAt(s, x + y, p) <==> OccursAt(s, x, p) && OccursAt(s, y, p + |x|)
  {
    if p + |x| + |y| <= |s| {
      assert s[p..p + |x| + |y|] == s[p..p + |x|] + s[p + |x|..p + |x| + |y|];
      if OccursAt(s, x + y, p) {
        assert s[p..p + |x|] == (x + y)[..|x|];
        assert s[p + |x|..p + |x| + |y|] == (x + y)[|x|..];
      }
    }
  }

  lemma OccursQuoteFree(s: string, t: string, p: nat)
    requires OccursAt(s, t, p) && QuoteFree(t)
    ensures forall k :: p <= k < p + |t| ==> s[k] != '"'
  {
    forall k | p <= k < p + |t| ensures s[k] != '"' {
      assert s[k] == s[p..p + |t|][k - p];
    }
  }

  lemma OccursSpaces(s: string, t: string, p: nat)
    requires OccursAt(s, t, p) && Spaces(t)
    ensures forall k :: p <= k < p + |t| ==> IsSpace(s[k])
  {
    forall k | p <= k < p + |t| ensures IsSpace(s[k]) {
      assert s[k] == s[p..p + |t|][k - p];
    }
  }

  lemma OccursQuote(s: string, t: string, p: nat)
    requires OccursAt(s, t, p) && |t| > 0 && t[0] == '"'
    ensures p < |s| && s[p] == '"'
  {
    assert s[p] == s[p..p + |t|][0];
  }

  // Each stage matches exactly the text of its shape.

  lemma SecondArgExact(s: string, e: nat, name: string)
    requires e <= |s|
    ensures SecondArg(s, e) == Some(name) <==> name != [] && QuoteFree(name) && OccursAt(s, Closing(name), e)
  {
    OccursAtConcat(s, name, "\")", e);
    if name != [] && QuoteFree(name) && OccursAt(s, Closing(name), e) {
      OccursQuoteFree(s, name, e);
      OccursQuote(s, "\")", e + |name|);
      NonQuoteRunExact(s, e, |name|);
    }
    if SecondArg(s, e) == Some(name) {
      NonQuoteRunText(s, e);
    }
  }

  /** The pieces of the text after the comma. */
  lemma QuotedParts(s: string, c: nat, ws: string, name: string)
    requires Spaces(ws) && OccursAt(s, Quoted(ws, name), c)
    ensures SpaceRun(s, c) == |ws| && s[c + |ws|] == '"' && OccursAt(s, Closing(name), c + |ws| + 1)
  {
    OccursAtConcat(s, ws, "\"" + Closing(name), c);
    OccursAtConcat(s, "\"", Closing(name), c + |ws|);
    OccursSpaces(s, ws, c);
    OccursQuote(s, "\"", c + |ws|);
    QuoteNotSpace();
    SpaceRunExact(s, c, |ws|);
  }

  lemma QuoteNotSpace()
    ensures !IsSpace('"')
  {
  }

  /** The run of whitespace after the comma, as text. */
  lemma {:induction false} SpaceRunText(s: string, c: nat)
    requires c <= |s|
    ensures Spaces(s[c..c + SpaceRun(s, c)]) && OccursAt(s, s[c..c + SpaceRun(s, c)], c)
    decreases |s| - c
  {
    if c < |s| && IsSpace(s[c]) {
      SpaceRunText(s, c + 1);
      var n := SpaceRun(s, c);
      assert s[c..c + n] == [s[c]] + s[c + 1..c + n];
    }
  }

  /** A match after the comma has the whitespace `ws` it skips. */
  lemma AfterCommaSound(s: string, c: nat) returns (ws: string)
    requires c <= |s| && AfterComma(s, c).Some?
    ensures AfterComma(s, c).value != [] && QuoteFree(AfterComma(s, c).value)
    ensures Spaces(ws) && OccursAt(s, Quoted(ws, AfterComma(s, c).value), c)
  {
    var d := c + SpaceRun(s, c);
    assert d < |s| && s[d] == '"';
    AfterCommaStep(s, c);
    var name := SecondArg(s, d + 1).value;
    SpaceRunText(s, c);
    ws := s[c..d];
    SecondArgExact(s, d + 1, name);
    QuotedOccurs(s, c, ws, name);
  }

  /** The text after the comma, assembled from its pieces. */
  lemma QuotedOccurs(s: string, c: nat, ws: string, name: string)
    requires OccursAt(s, ws, c) && c + |ws| < |s| && s[c + |ws|] == '"'
    requires OccursAt(s, Closing(name), c + |ws| + 1)
    ensures OccursAt(s, Quoted(ws, name), c)
  {
    var d := c + |ws|;
    assert OccursAt(s, "\"", d) by {
      assert s[d..d + 1] == [s[d]];
    }
    OccursAtConcat(s, "\"", Closing(name), d);
    OccursAtConcat(s, ws, "\"" + Closing(name), c);
  }

  lemma AfterCommaComplete(s: string, c: nat, ws: string, name: string)
    requires c <= |s| && Spaces(ws) && name != [] && QuoteFree(name)
    requires OccursAt(s, Quoted(ws, name), c)
    ensures AfterComma(s, c) == Some(name)
  {
    QuotedParts(s, c, ws, name);
    AfterCommaStep(s, c);
    SecondArgExact(s, c + |ws| + 1, name);
  }

  /** Past the whitespace and the opening `"`, the match goes on with the
      second argument. */
  lemma AfterCommaStep(s: string, c: nat)
    requires c <= |s| && c + SpaceRun(s, c) < |s| && s[c + SpaceRun(s, c)] == '"'
    ensures AfterComma(s, c) == SecondArg(s, c + SpaceRun(s, c) + 1)
  {
  }

  /** The pieces of the text after the prefix. */
  lemma AfterCodeParts(s: string, a: nat, code: string, ws: string, name: string)
    requires code != [] && QuoteFree(code) && OccursAt(s, AfterCode(code, ws, name), a)
    ensures NonQuoteRun(s, a) == |code| && OccursAt(s, "\",", a + |code|)
    ensures OccursAt(s, Quoted(ws, name), a + |code| + 2)
  {
    OccursAtConcat(s, code, "\"," + Quoted(ws, name), a);
    OccursAtConcat(s, "\",", Quoted(ws, name), a + |code|);
    OccursQuoteFree(s, code, a);
    OccursQuote(s, "\",", a + |code|);
    NonQuoteRunExact(s, a, |code|);
  }

  /** An argument, as text. */
  lemma {:induction false} NonQuoteRunText(s: string, a: nat)
    requires a <= |s|
    ensures QuoteFree(s[a..a + NonQuoteRun(s, a)]) && OccursAt(s, s[a..a + NonQuoteRun(s, a)], a)
    decreases |s| - a
  {
    if a < |s| && s[a] != '"' {
      NonQuoteRunText(s, a + 1);
      var n := NonQuoteRun(s, a);
      assert s[a..a + n] == [s[a]] + s[a + 1..a + n];
    }
  }

  /** A match past the prefix has the first argument `code` and the
      whitespace `ws` it skips. */
  lemma AfterPrefixSound(s: string, a: nat) returns (code: string, ws: string)
    requires a <= |s| && AfterPrefix(s, a).Some?
    ensures AfterPrefix(s, a).value != [] && QuoteFree(AfterPrefix(s, a).value)
    ensures code != [] && QuoteFree(code) && Spaces(ws)
    ensures OccursAt(s, AfterCode(code, ws, AfterPrefix(s, a).value), a)
  {
    AfterPrefixSome(s, a);
    var n := NonQuoteRun(s, a);
    var b := a + n;
    NonQuoteRunText(s, a);
    code := s[a..b];
    assert |code| == n > 0;
    var after := AfterComma(s, b + 2);
    assert AfterPrefix(s, a) == after;
    ws := AfterCommaSound(s, b + 2);
    AfterCodeOccurs(s, a, code, ws, after.value);
  }

  /** A match past the prefix has a non-empty first argument followed by
      `",`, and goes on after the comma. */
  lemma AfterPrefixSome(s: string, a: nat)
    requires a <= |s| && AfterPrefix(s, a).Some?
    ensures NonQuoteRun(s, a) > 0 && OccursAt(s, "\",", a + NonQuoteRun(s, a))
    ensures AfterPrefix(s, a) == AfterComma(s, a + NonQuoteRun(s, a) + 2)
  {
  }

  /** The text after the prefix, assembled from its pieces. */
  lemma AfterCodeOccurs(s: string, a: nat, code: string, ws: string, name: string)
    requires OccursAt(s, code, a) && OccursAt(s, "\",", a + |code|)
    requires OccursAt(s, Quoted(ws, name), a + |code| + 2)
    ensures OccursAt(s, AfterCode(code, ws, name), a)
  {
    OccursAtConcat(s, "\",", Quoted(ws, name), a + |code|);
    OccursAtConcat(s, code, "\"," + Quoted(ws, name), a);
  }

  lemma AfterPrefixComplete(s: string, a: nat, code: string, ws: string, name: string)
    requires a <= |s| && code != [] && QuoteFree(code) && Spaces(ws) && name != [] && QuoteFree(name)
    requires OccursAt(s, AfterCode(code, ws, name), a)
    ensures AfterPrefix(s, a) == Some(name)
  {
    AfterCodeParts(s, a, code, ws, name);
    var c := a + |code| + 2;
    AfterCommaComplete(s, c, ws, name);
    assert AfterComma(s, c) == Some(name);
    AfterPrefixStep(s, a);
  }

  /** Past a non-empty first argument and its `",`, the match goes on after
      the comma. */
  lemma AfterPrefixStep(s: string, a: nat)
    requires a <= |s| && NonQuoteRun(s, a) > 0 && OccursAt(s, "\",", a + NonQuoteRun(s, a))
    ensures AfterPrefix(s, a) == AfterComma(s, a + NonQuoteRun(s, a) + 2)
  {
  }

  /** A match found at `p` has the shape the pattern describes. */
  lemma MatchAtSound(s: string, p: nat)
    requires p <= |s| && MatchAt(s, p).Some?
    ensures exists code, ws :: MatchesWith(s, p, code, ws, MatchAt(s, p).value)
  {
    var name := MatchAt(s, p).value;
    var a := p + |CallPrefix|;
    assert OccursAt(s, CallPrefix, p) && MatchAt(s, p) == AfterPrefix(s, a);
    var code, ws := AfterPrefixSound(s, a);
    OccursAtConcat(s, CallPrefix, AfterCode(code, ws, name), p);
    assert CallText(code, ws, name) == CallPrefix + AfterCode(code, ws, name);
    assert MatchesWith(s, p, code, ws, name);
  }

  /** Text of the pattern's shape at `p` is found as a match there, with
      that second argument. */
  lemma MatchAtComplete(s: string, p: nat, code: string, ws: string, name: string)
    requires MatchesWith(s, p, code, ws, name)
    ensures MatchAt(s, p) == Some(name)
  {
    OccursAtConcat(s, CallPrefix, AfterCode(code, ws, name), p);
    AfterPrefixComplete(s, p + |CallPrefix|, code, ws, name);
  }

  /** `re.search`: the match that starts leftmost. */
  function Search(s: string, p: nat): (r: Option<string>)
    requires p <= |s|
    ensures r.Some? ==> exists q :: p <= q <= |s| && MatchAt(s, q) == r
                                    && forall k :: p <= k < q ==> MatchAt(s, k).None?
    ensures r.None? ==> forall q :: p <= q <= |s| ==> MatchAt(s, q).None?
    decreases |s| - p
  {
    if MatchAt(s, p).Some? then MatchAt(s, p)
    else if p == |s| then None
    else Search(s, p + 1)
  }

  // ----- `get_anchor_name` -----

  /** The region name of an anchor with rendered text `text` and `href`
      attribute `href` (absent when the anchor has none). */
  function AnchorName(text: string, href: Option<string>): (r: string)
    ensures Strip(text) != [] ==> r == Strip(text)
    ensures Strip(text) == [] && Search(href.GetOr(""), 0).None? ==> r == []
    ensures Strip(text) == [] && Search(href.GetOr(""), 0).Some? ==>
              r == Percent.Unquote(Search(href.GetOr(""), 0).value)
  {
    var t := Strip(text);
    if t != [] then t
    else
      var h := href.GetOr("");
      match Search(h, 0)
      case Some(g) => Percent.Unquote(g)
      case None => []
  }

  /** The link the tree writes for a region: `javascript:selectGrid("code",
      "name");` with the name percent-encoded. */
  function SelectGridHref(code: string, name: string): string {
    "javascript:" + CallText(code, " ", Percent.PercentEncode(name)) + ";"
  }

  /** Percent-encoded text never holds a `"`. */
  lemma EncodedQuoteFree(name: string)
    ensures QuoteFree(Percent.PercentEncode(name))
  {
    var e := Percent.PercentEncode(name);
    forall k | 0 <= k < |e| ensures e[k] != '"' {
      EncodedChars(Percent.Utf8Encode(name), k);
    }
  }

  lemma {:induction false} EncodedChars(bs: seq<Percent.Byte>, k: nat)
    requires k < |Percent.EncodeBytes(bs)|
    ensures Percent.EncodeBytes(bs)[k] != '"'
    decreases |bs|
  {
    var head := Percent.EncodeByte(bs[0]);
    if k >= |head| {
      EncodedChars(bs[1..], k - |head|);
    }
  }

  /** Encoding a non-empty string gives a non-empty string. */
  lemma EncodedNonEmpty(name: string)
    requires name != []
    ensures Percent.PercentEncode(name) != []
  {
    assert Percent.Utf8Encode(name) == Percent.Utf8Char(name[0]) + Percent.Utf8Encode(name[1..]);
    var bs := Percent.Utf8Encode(name);
    assert Percent.EncodeBytes(bs) == Percent.EncodeByte(bs[0]) + Percent.EncodeBytes(bs[1..]);
  }

  /** An anchor with blank text and the tree's link for a region yields that
      region's name. */
  lemma AnchorNameFromHref(text: string, code: string, name: string)
    requires Strip(text) == []
    requires code != [] && QuoteFree(code) && name != []
    ensures AnchorName(text, Some(SelectGridHref(code, name))) == name
  {
    var e := Percent.PercentEncode(name);
    EncodedQuoteFree(name);
    EncodedNonEmpty(name);
    HrefMatch(code, e);
    Percent.UnquoteRoundTrip(name);
  }

  /** The leftmost match in the tree's link is its call, with the encoded
      name as second argument. */
  lemma HrefMatch(code: string, e: string)
    requires code != [] && QuoteFree(code) && e != [] && QuoteFree(e)
    ensures Search("javascript:" + CallText(code, " ", e) + ";", 0) == Some(e)
  {
    var j := "javascript:";
    var ct := CallText(code, " ", e);
    var h := j + ct + ";";
    assert OccursAt(h, h, 0);
    OccursAtConcat(h, j + ct, ";", 0);
    OccursAtConcat(h, j, ct, 0);
    assert Spaces(" ");
    assert MatchesWith(h, |j|, code, " ", e);
    MatchAtComplete(h, |j|, code, " ", e);
    assert StartsWith(h, j) by {
      OccursAtConcat(h, j, ct, 0);
    }
    forall q | 0 <= q < |j| ensures MatchAt(h, q).None? {
      NoCallInPrefix(h, q);
    }
    SearchFinds(h, 0, |j|, e);
  }

  /** A match with none before it is what the search returns. */
  lemma {:induction false} SearchFinds(s: string, p: nat, q: nat, g: string)
    requires p <= q <= |s| && MatchAt(s, q) == Some(g)
    requires forall k :: p <= k < q ==> MatchAt(s, k).None?
    ensures Search(s, p) == Some(g)
    decreases q - p
  {
    if p < q {
      SearchFinds(s, p + 1, q, g);
    }
  }

  /** No match starts inside `javascript:`. */
  lemma NoCallInPrefix(h: string, q: nat)
    requires StartsWith(h, "javascript:") && q < 11
    ensures q + |CallPrefix| > |h| || h[q..q + |CallPrefix|] != CallPrefix
  {
    var j := "javascript:";
    if q + |CallPrefix| <= |h| {
      assert 's' !in j[..4] && 's' !in j[5..];
      if q == 4 {
        assert h[5] == h[..11][5] == 'c';
        assert h[q..q + |CallPrefix|][1] == 'c';
      } else if q < 4 {
        assert h[q] == h[..11][q] == j[..4][q];
        assert h[q..q + |CallPrefix|][0] != 's';
      } else {
        assert h[q] == h[..11][q] == j[5..][q - 5];
        assert h[q..q + |CallPrefix|][0] != 's';
      }
    }
  }

  // ----- `wait_for_download` -----

  const Crdownload: string := ".crdownload"

  /** A name the comprehension keeps: not a partial Chrome download, and
      ending in `.xls` or `.xlsx`. */
  predicate IsFinishedExcel(f: string) {
    !EndsWith(f, Crdownload) && (EndsWith(f, ".xls") || EndsWith(f, ".xlsx"))
  }

  /** `os.path.join` of two components, POSIX rules: an absolute second part
      replaces the first, and a `/` is inserted when the first does not end
      in one. */
  function PathJoin(a: string, b: string): (r: string)
    ensures StartsWith(b, "/") ==> r == b
    ensures !StartsWith(b, "/") && a != [] && a[|a| - 1] != '/' ==> r == a + "/" + b
    ensures !StartsWith(b, "/") && (a == [] || a[|a| - 1] == '/') ==> r == a + b
  {
    if StartsWith(b, "/") then b
    else if a == [] || a[|a| - 1] == '/' then a + b
    else a + "/" + b
  }

  /** One poll of the temporary folder: the path of the first finished
      Excel file in listing order, if any. */
  function DetectDownload(tmpDir: string, listing: seq<string>): Option<string> {
    var files := Filter(listing, IsFinishedExcel);
    if |files| > 0 then Some(PathJoin(tmpDir, files[0])) else None
  }

  /** A poll finds a file exactly when some listed name is a finished Excel
      file, and then it is the first such name. */
  lemma DetectDownloadFirst(tmpDir: string, listing: seq<string>)
    ensures DetectDownload(tmpDir, listing).None? <==> forall i :: 0 <= i < |listing| ==> !IsFinishedExcel(listing[i])
    ensures DetectDownload(tmpDir, listing).Some? ==>
      exists i :: 0 <= i < |listing| && IsFinishedExcel(listing[i])
        && DetectDownload(tmpDir, listing) == Some(PathJoin(tmpDir, listing[i]))
        && forall j :: 0 <= j < i ==> !IsFinishedExcel(listing[j])
  {
    var files := Filter(listing, IsFinishedExcel);
    if |files| > 0 {
      var i := FilterFirst(listing, IsFinishedExcel);
    } else {
      forall i | 0 <= i < |listing| ensures !IsFinishedExcel(listing[i]) {
        assert listing[i] in listing;
      }
    }
  }

  /** The `.crdownload` test never rejects a name that the extension test
      accepts: a partial download name ends in `d`, an Excel name in `s` or
      `x`. */
  lemma CrdownloadTestRedundant(f: string)
    requires EndsWith(f, ".xls") || EndsWith(f, ".xlsx")
    ensures !EndsWith(f, Crdownload)
  {
    var last := f[|f| - 1];
    if EndsWith(f, ".xls") {
      assert last == f[|f| - 4..][3] == 's';
    } else {
      assert last == f[|f| - 5..][4] == 'x';
    }
    if |f| >= |Crdownload| {
      assert f[|f| - |Crdownload|..][10] == last;
    }
  }

  // ----- `move_file` -----

  /** The last index of `c` in `s`, or -1 (`str.rfind`). */
  function LastIndexOf(s: string, c: char): (r: int)
    ensures -1 <= r < |s|
    ensures r >= 0 ==> s[r] == c
    ensures forall k :: r < k < |s| ==> s[k] != c
    decreases |s|
  {
    if |s| == 0 then -1
    else if s[|s| - 1] == c then |s| - 1
    else LastIndexOf(s[..|s| - 1], c)
  }

  /** `os.path.splitext` (POSIX): the extension starts at the last `.` of
      the last path component, unless every character before it in that
      component is also a `.` (a hidden file has no extension). */
  function SplitExt(p: string): (r: (string, string))
    ensures r.0 + r.1 == p
    ensures r.1 == [] || (r.1[0] == '.' && '/' !in r.1 && '.' !in r.1[1..])
  {
    var sepIndex := LastIndexOf(p, '/');
    var dotIndex := LastIndexOf(p, '.');
    if dotIndex > sepIndex && exists k :: sepIndex + 1 <= k < dotIndex && p[k] != '.' then
      assert p[..dotIndex] + p[dotIndex..] == p;
      (p[..dotIndex], p[dotIndex..])
    else (p, [])
  }

  /** `os.path.join(dest_dir, dest_name + os.path.splitext(src)[1])`. */
  function DestinationPath(src: string, destDir: string, destName: string): string {
    PathJoin(destDir, destName + SplitExt(src).1)
  }

  /** The source extension is always appended, whether or not the new name
      already has one: below `dest_dir`, the path is the name followed by
      that extension. */
  lemma DestinationAppendsExtension(src: string, destDir: string, destName: string)
    requires !StartsWith(destName, "/")
    ensures var t := destName + SplitExt(src).1;
      DestinationPath(src, destDir, destName) ==
        if destDir == [] || destDir[|destDir| - 1] == '/' then destDir + t else destDir + "/" + t
  {
    var ext := SplitExt(src).1;
    var t := destName + ext;
    if |destName| > 0 {
      assert t[..1] == destName[..1];
    } else {
      assert t == ext;
    }
  }

  /** The moved file keeps the source's extension: split again, the
      destination gives back the extension it was given, when the new name
      is one plain component with a character other than `.`. */
  lemma DestinationKeepsExtension(src: string, destDir: string, destName: string)
    requires SplitExt(src).1 != []
    requires '/' !in destName && exists k :: 0 <= k < |destName| && destName[k] != '.'
    ensures SplitExt(DestinationPath(src, destDir, destName)).1 == SplitExt(src).1
  {
    var ext := SplitExt(src).1;
    assert !StartsWith(destName, "/") by {
      assert destName[0] in destName;
    }
    DestinationAppendsExtension(src, destDir, destName);
    var r := DestinationPath(src, destDir, destName);
    if destDir == [] || destDir[|destDir| - 1] == '/' {
      assert r == destDir + destName + ext;
      SplitExtOfName(destDir, destName, ext);
    } else {
      assert r == (destDir + "/") + destName + ext;
      SplitExtOfName(destDir + "/", destName, ext);
    }
  }

  /** Splitting `dir/name.ext` where `name` is one plain component. */
  lemma SplitExtOfName(dir: string, name: string, ext: string)
    requires dir == [] || dir[|dir| - 1] == '/'
    requires '/' !in name && exists k :: 0 <= k < |name| && name[k] != '.'
    requires |ext| > 0 && ext[0] == '.' && '/' !in ext && '.' !in ext[1..]
    ensures SplitExt(dir + name + ext) == (dir + name, ext)
  {
    var p := dir + name + ext;
    var dot := |dir| + |name|;
    assert p[dot] == '.';
    forall k | dot < k < |p| ensures p[k] != '.' && p[k] != '/' {
      assert p[k] == ext[k - dot] && ext[k - dot] in ext;
      assert ext[k - dot] == ext[1..][k - dot - 1];
      assert ext[1..][k - dot - 1] in ext[1..];
    }
    assert LastIndexOf(p, '.') == dot;
    forall k | |dir| <= k < dot ensures p[k] != '/' {
      assert p[k] == name[k - |dir|] && name[k - |dir|] in name;
    }
    assert dir == [] || p[|dir| - 1] == '/';
    var sep := LastIndexOf(p, '/');
    assert sep < |dir|;
    assert sep == |dir| - 1 || dir == [];
    var k0 :| 0 <= k0 < |name| && name[k0] != '.';
    assert p[|dir| + k0] == name[k0];
    assert p[..dot] == dir + name && p[dot..] == ext;
  }

  // ----- The saved-file count -----

  /** One `os.walk` triple, without the sub-directory names. */
  datatype WalkEntry = WalkEntry(dirpath: string, files: seq<string>)

  const TmpMarker: string := "_tmp"

  /** `sum(len(files) for dirpath, _dirs, files in os.walk(output_dir) if
      "_tmp" not in dirpath)`. */
  function SavedFileCount(walk: seq<WalkEntry>): nat
    decreases |walk|
  {
    if |walk| == 0 then 0
    else
      var e := walk[|walk| - 1];
      SavedFileCount(walk[..|walk| - 1]) + (if Contains(e.dirpath, TmpMarker) then 0 else |e.files|)
  }

  /** Every file of the walk, counted without the exclusion. */
  function AllFileCount(walk: seq<WalkEntry>): nat
    decreases |walk|
  {
    if |walk| == 0 then 0 else AllFileCount(walk[..|walk| - 1]) + |walk[|walk| - 1].files|
  }

  lemma {:induction false} SavedFileCountAppend(a: seq<WalkEntry>, b: seq<WalkEntry>)
    ensures SavedFileCount(a + b) == SavedFileCount(a) + SavedFileCount(b)
    decreases |b|
  {
    if |b| == 0 {
      assert a + b == a;
    } else {
      assert (a + b)[..|a + b| - 1] == a + b[..|b| - 1];
      SavedFileCountAppend(a, b[..|b| - 1]);
    }
  }

  /** A directory whose path contains `_tmp` adds nothing to the count,
      wherever the walk visits it. */
  lemma TmpDirectoryNotCounted(a: seq<WalkEntry>, e: WalkEntry, b: seq<WalkEntry>)
    requires Contains(e.dirpath, TmpMarker)
    ensures SavedFileCount(a + [e] + b) == SavedFileCount(a + b)
  {
    SavedFileCountAppend(a + [e], b);
    SavedFileCountAppend(a, b);
    assert (a + [e])[..|a + [e]| - 1] == a;
  }

  /** The count is at most the number of files, and is exactly that number
      when no path contains `_tmp`. */
  lemma {:induction false} SavedAtMostAll(walk: seq<WalkEntry>)
    ensures SavedFileCount(walk) <= AllFileCount(walk)
    ensures (forall i :: 0 <= i < |walk| ==> !Contains(walk[i].dirpath, TmpMarker)) ==>
              SavedFileCount(walk) == AllFileCount(walk)
    decreases |walk|
  {
    if |walk| > 0 {
      SavedAtMostAll(walk[..|walk| - 1]);
      assert forall i :: 0 <= i < |walk| - 1 ==> walk[..|walk| - 1][i] == walk[i];
    }
  }

  /** The test is on the whole path, so under an output folder whose own
      path contains `_tmp` nothing is counted. */
  lemma {:induction false} TmpRootCountsNothing(root: string, walk: seq<WalkEntry>)
    requires Contains(root, TmpMarker)
    requires forall i :: 0 <= i < |walk| ==> StartsWith(walk[i].dirpath, root)
    ensures SavedFileCount(walk) == 0
    decreases |walk|
  {
    if |walk| > 0 {
      var e := walk[|walk| - 1];
      assert forall i :: 0 <= i < |walk| - 1 ==> walk[..|walk| - 1][i] == walk[i];
      TmpRootCountsNothing(root, walk[..|walk| - 1]);
      PrefixContains(root, e.dirpath, TmpMarker);
    }
  }

  /** A substring of a prefix is a substring of the whole. */
  lemma PrefixContains(root: string, path: string, sub: string)
    requires Contains(root, sub) && StartsWith(path, root)
    ensures Contains(path, sub)
  {
    ContainsAt(root, sub);
    var i :| OccursAt(root, sub, i);
    assert path[i..i + |sub|] == root[i..i + |sub|];
    OccursContains(path, sub, i);
  }
}
