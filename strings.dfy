/** Python's string operations that the scripts rely on, on `seq<char>`:
    `str.isspace`, `strip`, `rstrip(chars)`, `startswith`/`endswith`, the
    substring test `in`, `replace(c, "")`, `split(sep)`, `sep.join`, and the
    code-point order that `<` and `sorted` use on `str`. */
module Strings {

  /** Python's `str.isspace()` for a single character: the Unicode White_Space
      characters plus the four ASCII separators U+001C..U+001F. */
  predicate IsSpace(c: char) {
    || c == ' ' || ('\t' <= c <= '\r') || ('\U{1C}' <= c <= '\U{1F}')
    || c == '\U{85}' || c == '\U{A0}' || c == '\U{1680}'
    || ('\U{2000}' <= c <= '\U{200A}') || c == '\U{2028}' || c == '\U{2029}'
    || c == '\U{202F}' || c == '\U{205F}' || c == '\U{3000}'
  }

  /** `s.lstrip()`: `s` without its leading whitespace. */
  function LStrip(s: string): (r: string)
    ensures |r| <= |s|
    ensures r == [] || !IsSpace(r[0])
  {
    if |s| > 0 && IsSpace(s[0]) then LStrip(s[1..]) else s
  }

  /** `s.rstrip()`: `s` without its trailing whitespace. */
  function RStrip(s: string): (r: string)
    ensures |r| <= |s|
    ensures r == [] || !IsSpace(r[|r| - 1])
  {
    if |s| > 0 && IsSpace(s[|s| - 1]) then RStrip(s[..|s| - 1]) else s
  }

  /** `s.strip()`. */
  function Strip(s: string): string {
    RStrip(LStrip(s))
  }

  /** `lstrip()` leaves a suffix of `s` and drops only whitespace. */
  lemma {:induction false} LStripSuffix(s: string)
    ensures LStrip(s) == s[|s| - |LStrip(s)|..]
    ensures forall k :: 0 <= k < |s| - |LStrip(s)| ==> IsSpace(s[k])
    decreases |s|
  {
    if |s| > 0 && IsSpace(s[0]) {
      LStripSuffix(s[1..]);
      assert s[1..][|s| - 1 - |LStrip(s)|..] == s[|s| - |LStrip(s)|..];
      forall k | 0 < k < |s| - |LStrip(s)| ensures IsSpace(s[k]) { assert s[k] == s[1..][k - 1]; }
    }
  }

  /** `rstrip()` leaves a prefix of `s` and drops only whitespace. */
  lemma {:induction false} RStripPrefix(s: string)
    ensures RStrip(s) == s[..|RStrip(s)|]
    ensures forall k :: |RStrip(s)| <= k < |s| ==> IsSpace(s[k])
    decreases |s|
  {
    if |s| > 0 && IsSpace(s[|s| - 1]) {
      RStripPrefix(s[..|s| - 1]);
      assert s[..|s| - 1][..|RStrip(s)|] == s[..|RStrip(s)|];
      forall k | |RStrip(s)| <= k < |s| - 1 ensures IsSpace(s[k]) { assert s[k] == s[..|s| - 1][k]; }
    }
  }

  /** A stripped string has whitespace at neither end; it is the slice of `s`
      that starts after the leading whitespace, and everything around it is
      whitespace. */
  lemma StripShape(s: string)
    ensures var r, i := Strip(s), |s| - |LStrip(s)|;
      && (r == [] || (!IsSpace(r[0]) && !IsSpace(r[|r| - 1])))
      && i + |r| <= |s| && s[i..i + |r|] == r
      && (forall k :: 0 <= k < i ==> IsSpace(s[k]))
      && (forall k :: i + |r| <= k < |s| ==> IsSpace(s[k]))
  {
    var l := LStrip(s);
    var r := RStrip(l);
    var i := |s| - |l|;
    LStripSuffix(s);
    RStripPrefix(l);
    assert r != [] ==> r[0] == l[0];
    assert s[i..i + |r|] == l[..|r|];
    forall k | i + |r| <= k < |s| ensures IsSpace(s[k]) {
      assert s[k] == l[k - i];
    }
  }

  /** A string with whitespace at neither end is its own `strip()`. */
  lemma StripOfStripped(s: string)
    requires s == [] || (!IsSpace(s[0]) && !IsSpace(s[|s| - 1]))
    ensures Strip(s) == s
  {
  }

  /** `strip()` is idempotent. */
  lemma StripIdempotent(s: string)
    ensures Strip(Strip(s)) == Strip(s)
  {
    StripShape(s);
    StripOfStripped(Strip(s));
  }

  predicate AllSpace(s: string) {
    forall k :: 0 <= k < |s| ==> IsSpace(s[k])
  }

  /** Leading whitespace does not change `lstrip()`. */
  lemma {:induction false} LStripSpaces(w: string, y: string)
    requires AllSpace(w)
    ensures LStrip(w + y) == LStrip(y)
    decreases |w|
  {
    if |w| > 0 {
      assert (w + y)[1..] == w[1..] + y;
      LStripSpaces(w[1..], y);
    } else {
      assert w + y == y;
    }
  }

  /** Trailing whitespace does not change `rstrip()`. */
  lemma {:induction false} RStripSpaces(y: string, w: string)
    requires AllSpace(w)
    ensures RStrip(y + w) == RStrip(y)
    decreases |w|
  {
    if |w| > 0 {
      assert (y + w)[..|y + w| - 1] == y + w[..|w| - 1];
      RStripSpaces(y, w[..|w| - 1]);
    } else {
      assert y + w == y;
    }
  }

  /** `lstrip()` of a concatenation: the left part's, unless that part is all
      whitespace. */
  lemma {:induction false} LStripAppend(x: string, y: string)
    ensures LStrip(x + y) == if LStrip(x) == [] then LStrip(y) else LStrip(x) + y
    decreases |x|
  {
    if |x| == 0 {
      assert x + y == y;
    } else if IsSpace(x[0]) {
      assert (x + y)[1..] == x[1..] + y;
      LStripAppend(x[1..], y);
    }
  }

  /** Whitespace around a string does not change its `strip()`. */
  lemma StripPadded(l: string, x: string, r: string)
    requires AllSpace(l) && AllSpace(r)
    ensures Strip(l + x + r) == Strip(x)
  {
    assert l + x + r == l + (x + r);
    LStripSpaces(l, x + r);
    LStripAppend(x, r);
    if LStrip(x) == [] {
      assert LStrip(r) == [] by { LStripSpaces(r, []); assert r + [] == r; }
    } else {
      RStripSpaces(LStrip(x), r);
    }
  }

  /** A string is its `strip()` with whitespace on either side. */
  lemma StripParts(s: string) returns (l: string, r: string)
    ensures s == l + Strip(s) + r && AllSpace(l) && AllSpace(r)
  {
    StripShape(s);
    var i := |s| - |LStrip(s)|;
    var m := Strip(s);
    assert i + |m| <= |s| && s[i..i + |m|] == m;
    l, r := s[..i], s[i + |m|..];
    assert s[i..] == s[i..i + |m|] + r;
    assert s == l + s[i..];
    assert AllSpace(l) by { forall k | 0 <= k < |l| ensures IsSpace(l[k]) { assert l[k] == s[k]; } }
    assert AllSpace(r) by { forall k | 0 <= k < |r| ensures IsSpace(r[k]) { assert r[k] == s[i + |m| + k]; } }
  }

  /** Removing a character that is not whitespace commutes with `strip()` up to
      a second `strip()`. */
  lemma StripRemoveChar(s: string, c: char)
    requires !IsSpace(c)
    ensures Strip(RemoveChar(s, c)) == Strip(RemoveChar(Strip(s), c))
  {
    var l, r := StripParts(s);
    var m := Strip(s);
    RemoveCharAppend(l + m, r, c);
    RemoveCharAppend(l, m, c);
    RemoveCharOfSpaces(l, c);
    RemoveCharOfSpaces(r, c);
    assert RemoveChar(s, c) == l + RemoveChar(m, c) + r;
    StripPadded(l, RemoveChar(m, c), r);
  }

  lemma {:induction false} RemoveCharAppend(a: string, b: string, c: char)
    ensures RemoveChar(a + b, c) == RemoveChar(a, c) + RemoveChar(b, c)
    decreases |a|
  {
    if |a| == 0 {
      assert a + b == b;
    } else {
      assert (a + b)[1..] == a[1..] + b;
      RemoveCharAppend(a[1..], b, c);
    }
  }

  lemma {:induction false} RemoveCharOfSpaces(w: string, c: char)
    requires AllSpace(w) && !IsSpace(c)
    ensures RemoveChar(w, c) == w
    decreases |w|
  {
    if |w| > 0 {
      RemoveCharOfSpaces(w[1..], c);
      assert w == [w[0]] + w[1..];
    }
  }

  predicate StartsWith(s: string, prefix: string) {
    |prefix| <= |s| && s[..|prefix|] == prefix
  }

  predicate EndsWith(s: string, suffix: string) {
    |suffix| <= |s| && s[|s| - |suffix|..] == suffix
  }

  /** Python's substring test `sub in s`. */
  predicate Contains(s: string, sub: string)
    decreases |s|
  {
    StartsWith(s, sub) || (|s| > 0 && Contains(s[1..], sub))
  }

  /** `sub` occurs in `s` starting at position `i`. */
  predicate OccursAt(s: string, sub: string, i: int) {
    0 <= i && i + |sub| <= |s| && s[i..i + |sub|] == sub
  }

  /** An occurrence at any position makes `sub in s` true. */
  lemma {:induction false} OccursContains(s: string, sub: string, i: int)
    requires OccursAt(s, sub, i)
    ensures Contains(s, sub)
    decreases i
  {
    if i > 0 {
      assert s[1..][i - 1..i - 1 + |sub|] == s[i..i + |sub|];
      OccursContains(s[1..], sub, i - 1);
    }
  }

  /** `sub in s` holds exactly when `sub` occurs at some position of `s`. */
  lemma {:induction false} ContainsAt(s: string, sub: string)
    ensures Contains(s, sub) <==> exists i :: OccursAt(s, sub, i)
    decreases |s|
  {
    if Contains(s, sub) {
      if StartsWith(s, sub) {
        assert OccursAt(s, sub, 0);
      } else {
        ContainsAt(s[1..], sub);
        var i :| OccursAt(s[1..], sub, i);
        assert s[i + 1..i + 1 + |sub|] == s[1..][i..i + |sub|];
        assert OccursAt(s, sub, i + 1);
      }
    }
    forall i | OccursAt(s, sub, i) ensures Contains(s, sub) {
      OccursContains(s, sub, i);
    }
  }

  /** A one-character substring test is membership. */
  lemma {:induction false} ContainsChar(s: string, c: char)
    ensures Contains(s, [c]) <==> c in s
    decreases |s|
  {
    if |s| > 0 {
      ContainsChar(s[1..], c);
      assert s == [s[0]] + s[1..];
    }
  }

  /** Every character of a substring is a character of the string. */
  lemma {:induction false} ContainsTransfersChars(s: string, sub: string, c: char)
    requires Contains(s, sub) && c in sub
    ensures c in s
    decreases |s|
  {
    if StartsWith(s, sub) {
      assert sub == s[..|sub|];
    } else {
      ContainsTransfersChars(s[1..], sub, c);
    }
  }

  /** `s.rstrip(c)` for a one-character argument: drops every trailing `c`. */
  function RStripChar(s: string, c: char): (r: string)
    ensures |r| <= |s| && r == s[..|r|]
    ensures r == [] || r[|r| - 1] != c
    ensures forall k :: |r| <= k < |s| ==> s[k] == c
  {
    if |s| > 0 && s[|s| - 1] == c then RStripChar(s[..|s| - 1], c) else s
  }

  /** `s.replace(c, "")` for a one-character `c`: `s` with every `c` removed,
      everything else kept in order. */
  function RemoveChar(s: string, c: char): (r: string)
    ensures |r| <= |s|
    decreases |s|
  {
    if |s| == 0 then []
    else (if s[0] == c then [] else [s[0]]) + RemoveChar(s[1..], c)
  }

  /** `RemoveChar` keeps exactly the other characters, and leaves a string
      without `c` alone. */
  lemma {:induction false} RemoveCharMembers(s: string, c: char)
    ensures c !in RemoveChar(s, c)
    ensures forall x :: x in RemoveChar(s, c) <==> x in s && x != c
    ensures c !in s ==> RemoveChar(s, c) == s
    decreases |s|
  {
    if |s| > 0 {
      RemoveCharMembers(s[1..], c);
      assert s == [s[0]] + s[1..];
    }
  }

  /** The position of the first `c` in `s`. */
  function FirstIndex(s: string, c: char): (i: nat)
    requires c in s
    ensures i < |s| && s[i] == c && c !in s[..i]
  {
    if s[0] == c then 0
    else
      assert c in s[1..] by { assert s == [s[0]] + s[1..]; }
      var j := FirstIndex(s[1..], c);
      assert s[..j + 1] == [s[0]] + s[1..][..j];
      j + 1
  }

  /** A position holding `c` with no `c` before it is the first index of `c`. */
  lemma {:induction false} FirstIndexAt(s: string, c: char, i: nat)
    requires i < |s| && s[i] == c && c !in s[..i]
    ensures FirstIndex(s, c) == i
    decreases i
  {
    if i > 0 {
      assert s[0] == s[..i][0];
      assert s[1..][..i - 1] == s[..i][1..];
      FirstIndexAt(s[1..], c, i - 1);
    }
  }

  /** Python's `s.split(sep)` for a one-character separator: the pieces between
      consecutive separators, empty pieces included. */
  function Split(s: string, sep: char): (r: seq<string>)
    ensures |r| >= 1
    ensures |r| == 1 <==> sep !in s
    ensures forall i :: 0 <= i < |r| ==> sep !in r[i]
    ensures sep in s ==> r[0] == s[..FirstIndex(s, sep)]
    decreases |s|
  {
    if sep !in s then [s]
    else
      var i := FirstIndex(s, sep);
      [s[..i]] + Split(s[i + 1..], sep)
  }

  /** Python's `sep.join(parts)`. */
  function Join(sep: string, parts: seq<string>): string
    decreases |parts|
  {
    if |parts| == 0 then ""
    else if |parts| == 1 then parts[0]
    else parts[0] + sep + Join(sep, parts[1..])
  }

  /** Splitting and re-joining with the same separator gives back the string. */
  lemma {:induction false} JoinSplit(s: string, sep: char)
    ensures Join([sep], Split(s, sep)) == s
    decreases |s|
  {
    if sep in s {
      var i := FirstIndex(s, sep);
      var rest := Split(s[i + 1..], sep);
      JoinSplit(s[i + 1..], sep);
      SplitUnfold(s, sep);
      JoinCons(s[..i], rest, [sep]);
      AroundIndex(s, i);
    }
  }

  /** `split` cuts at the first separator and goes on after it. */
  lemma SplitUnfold(s: string, sep: char)
    requires sep in s
    ensures Split(s, sep) == [s[..FirstIndex(s, sep)]] + Split(s[FirstIndex(s, sep) + 1..], sep)
  {
  }

  lemma JoinCons(a: string, rest: seq<string>, sep: string)
    requires |rest| >= 1
    ensures Join(sep, [a] + rest) == a + sep + Join(sep, rest)
  {
    assert ([a] + rest)[1..] == rest;
  }

  /** A string is its part before `i`, the character at `i` and its part after. */
  lemma AroundIndex(s: string, i: nat)
    requires i < |s|
    ensures s == s[..i] + [s[i]] + s[i + 1..]
  {
  }

  /** The pieces after the first, re-joined, are what follows the first separator. */
  lemma SplitTail(s: string, sep: char)
    requires sep in s
    ensures Join([sep], Split(s, sep)[1..]) == s[FirstIndex(s, sep) + 1..]
  {
    var i := FirstIndex(s, sep);
    assert Split(s, sep)[1..] == Split(s[i + 1..], sep);
    JoinSplit(s[i + 1..], sep);
  }

  /** Python's `a <= b` on `str`: lexicographic by code point, a proper prefix
      coming first. */
  predicate StrLe(a: string, b: string)
    decreases |a|
  {
    if |a| == 0 then true
    else if |b| == 0 then false
    else if a[0] != b[0] then a[0] < b[0]
    else StrLe(a[1..], b[1..])
  }

  /** Python's `a < b` on `str`. */
  predicate StrLt(a: string, b: string) {
    a != b && StrLe(a, b)
  }

  lemma {:induction false} StrLeReflexive(a: string)
    ensures StrLe(a, a)
    decreases |a|
  {
    if |a| > 0 { StrLeReflexive(a[1..]); }
  }

  lemma {:induction false} StrLeTotal(a: string, b: string)
    ensures StrLe(a, b) || StrLe(b, a)
    decreases |a|
  {
    if |a| > 0 && |b| > 0 && a[0] == b[0] { StrLeTotal(a[1..], b[1..]); }
  }

  lemma {:induction false} StrLeAntisymmetric(a: string, b: string)
    requires StrLe(a, b) && StrLe(b, a)
    ensures a == b
    decreases |a|
  {
    if |a| > 0 && |b| > 0 {
      StrLeAntisymmetric(a[1..], b[1..]);
      assert a == [a[0]] + a[1..] && b == [b[0]] + b[1..];
    }
  }

  lemma {:induction false} StrLeTransitive(a: string, b: string, c: string)
    requires StrLe(a, b) && StrLe(b, c)
    ensures StrLe(a, c)
    decreases |a|
  {
    if |a| > 0 && |b| > 0 && |c| > 0 && a[0] == b[0] && b[0] == c[0] {
      StrLeTransitive(a[1..], b[1..], c[1..]);
    }
  }
}
