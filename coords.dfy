/**
 * The coordinate-token scanner of `pylobid/utils.py`: `extract_coords` runs
 * `re.findall` with the pattern `[+|-]\d+(?:\.\d*)?` and returns every
 * non-overlapping match, left to right, as the literal text it matched.
 */
module Coords {
  import opened Text

  /** The character class `[+|-]`: it admits `|` as well as the two signs. */
  predicate IsSign(c: char) {
    c == '+' || c == '|' || c == '-'
  }

  /** The half-open stretch `[start, end)` of the input that one match covers. */
  datatype Span = Span(start: nat, end: nat)

  /**
   * The words of `[+|-]\d+(?:\.\d*)?`: a sign, a digit, then digits with at
   * most one '.' among them.
   */
  predicate IsToken(w: string) {
    && |w| >= 2
    && IsSign(w[0])
    && IsDigit(w[1])
    && (forall k :: 2 <= k < |w| ==> IsDigit(w[k]) || w[k] == '.')
    && (forall j, k :: 2 <= j < k < |w| && w[j] == '.' ==> w[k] != '.')
  }

  /** A match can begin at `p`: a sign directly followed by a digit. */
  predicate StartsToken(s: string, p: nat) {
    p + 1 < |s| && IsSign(s[p]) && IsDigit(s[p + 1])
  }

  /**
   * The match over `sp` cannot be extended: it is not followed by a digit,
   * and it is followed by '.' only if it already holds one.
   */
  predicate Maximal(s: string, sp: Span)
    requires sp.start <= sp.end <= |s|
  {
    sp.end == |s| || (!IsDigit(s[sp.end]) && (s[sp.end] == '.' ==> '.' in s[sp.start..sp.end]))
  }

  /** Some span of `sps` begins at `p`. */
  predicate StartsAt(sps: seq<Span>, p: nat) {
    exists k :: 0 <= k < |sps| && sps[k].start == p
  }

  /** The end of the greedy run of digits `\d*` that begins at `j`. */
  function DigitsEnd(s: string, j: nat): (e: nat)
    requires j <= |s|
    ensures j <= e <= |s|
    ensures forall k :: j <= k < e ==> IsDigit(s[k])
    ensures e == |s| || !IsDigit(s[e])
    decreases |s| - j
  {
    if j < |s| && IsDigit(s[j]) then DigitsEnd(s, j + 1) else j
  }

  /**
   * The end of the match at `p`: `\d+` takes every digit, and the optional
   * group `(?:\.\d*)?` is taken, greedily, whenever a '.' follows.
   */
  function TokenEnd(s: string, p: nat): (e: nat)
    requires StartsToken(s, p)
    ensures p + 2 <= e <= |s|
  {
    var d := DigitsEnd(s, p + 1);
    if d < |s| && s[d] == '.' then DigitsEnd(s, d + 1) else d
  }

  /**
   * The match at `p` is a word of the pattern, and the character after it
   * is neither a digit nor a '.' the word could still take.
   */
  lemma TokenEndMaximal(s: string, p: nat)
    requires StartsToken(s, p)
    ensures IsToken(s[p..TokenEnd(s, p)])
    ensures Maximal(s, Span(p, TokenEnd(s, p)))
  {
    var d := DigitsEnd(s, p + 1);
    if d < |s| && s[d] == '.' {
      assert s[p..TokenEnd(s, p)][d - p] == '.';
    }
  }

  /**
   * The scan `re.findall` performs from position `i`: where a match begins
   * it is taken whole and the scan resumes at its end; elsewhere the scan
   * moves on by one character.
   */
  function Scan(s: string, i: nat): (sps: seq<Span>)
    requires i <= |s|
    ensures forall k :: 0 <= k < |sps| ==> i <= sps[k].start < sps[k].end <= |s|
    decreases |s| - i
  {
    if i == |s| then []
    else if StartsToken(s, i) then [Span(i, TokenEnd(s, i))] + Scan(s, TokenEnd(s, i))
    else Scan(s, i + 1)
  }

  /** The matches come in increasing order and never overlap. */
  lemma {:induction false} ScanOrdered(s: string, i: nat)
    requires i <= |s|
    ensures forall j, k :: 0 <= j < k < |Scan(s, i)| ==> Scan(s, i)[j].end <= Scan(s, i)[k].start
    decreases |s| - i
  {
    if i < |s| {
      if StartsToken(s, i) {
        var e := TokenEnd(s, i);
        ScanOrdered(s, e);
        var sps, rest := Scan(s, i), Scan(s, e);
        assert forall k :: 1 <= k < |sps| ==> sps[k] == rest[k - 1];
      } else {
        ScanOrdered(s, i + 1);
      }
    }
  }

  /** Whether every span of `sps` lies within `s`. */
  predicate InBounds(s: string, sps: seq<Span>) {
    forall k :: 0 <= k < |sps| ==> sps[k].start <= sps[k].end <= |s|
  }

  /** The text each span of `sps` covers, in order. */
  function Texts(s: string, sps: seq<Span>): (r: seq<string>)
    requires InBounds(s, sps)
    ensures |r| == |sps|
    ensures forall k :: 0 <= k < |r| ==> r[k] == s[sps[k].start..sps[k].end]
  {
    if sps == [] then [] else [s[sps[0].start..sps[0].end]] + Texts(s, sps[1..])
  }

  /**
   * `extract_coords` (pylobid/utils.py:4-7): the text of every match, in
   * order, verbatim; no numeric conversion takes place.
   */
  function ExtractCoords(s: string): (r: seq<string>)
    ensures |r| == |Scan(s, 0)|
    ensures forall k :: 0 <= k < |r| ==> r[k] == s[Scan(s, 0)[k].start..Scan(s, 0)[k].end]
    ensures forall k :: 0 <= k < |r| ==> IsToken(r[k])
  {
    ScanTokens(s, 0);
    Texts(s, Scan(s, 0))
  }

  /** Every span the scan reports covers a maximal word of the pattern. */
  lemma {:induction false} ScanTokens(s: string, i: nat)
    requires i <= |s|
    ensures forall k :: 0 <= k < |Scan(s, i)| ==> IsToken(s[Scan(s, i)[k].start..Scan(s, i)[k].end]) && Maximal(s, Scan(s, i)[k])
    decreases |s| - i
  {
    if i < |s| {
      if StartsToken(s, i) {
        ScanTokens(s, TokenEnd(s, i));
      } else {
        ScanTokens(s, i + 1);
      }
    }
  }

  /**
   * Greediness pins the match down: the only maximal word of the pattern
   * that starts at `p` is the one the scanner takes.
   */
  lemma TokenEndUnique(s: string, p: nat, e: nat)
    requires p + 2 <= e <= |s|
    requires IsToken(s[p..e]) && Maximal(s, Span(p, e))
    ensures StartsToken(s, p)
    ensures e == TokenEnd(s, p)
  {
    assert s[p..e][0] == s[p] && s[p..e][1] == s[p + 1];
    var g := TokenEnd(s, p);
    if e != g {
      assert false;
    }
  }

  /** Past its sign a match holds only digits and '.', so no other match can begin inside it. */
  lemma NoStartInsideToken(s: string, i: nat, p: nat)
    requires StartsToken(s, i) && i < p < TokenEnd(s, i)
    ensures !StartsToken(s, p)
  {
    assert s[i..TokenEnd(s, i)][p - i] == s[p];
  }

  /** A match found by the scan resuming after the one at `i` is found by the scan from `i`. */
  lemma StartsAtAfterToken(s: string, i: nat, p: nat)
    requires StartsToken(s, i) && StartsAt(Scan(s, TokenEnd(s, i)), p)
    ensures StartsAt(Scan(s, i), p)
  {
    var rest := Scan(s, TokenEnd(s, i));
    var k :| 0 <= k < |rest| && rest[k].start == p;
    assert Scan(s, i)[k + 1] == rest[k];
  }

  /** A match that can begin at `p` is found by every scan that starts at or before `p`. */
  lemma {:induction false} ScanReaches(s: string, i: nat, p: nat)
    requires i <= p < |s| && StartsToken(s, p)
    ensures StartsAt(Scan(s, i), p)
    decreases |s| - i
  {
    if i == p {
      assert Scan(s, i)[0].start == p;
    } else if StartsToken(s, i) {
      if p < TokenEnd(s, i) {
        NoStartInsideToken(s, i, p);
      } else {
        ScanReaches(s, TokenEnd(s, i), p);
        StartsAtAfterToken(s, i, p);
      }
    } else {
      ScanReaches(s, i + 1, p);
    }
  }

  /**
   * Nothing is skipped and nothing is invented: the matches begin exactly
   * where a sign is directly followed by a digit.
   */
  lemma ScanFindsEverySign(s: string, i: nat)
    requires i <= |s|
    ensures forall p :: i <= p < |s| ==> (StartsToken(s, p) <==> StartsAt(Scan(s, i), p))
  {
    var sps := Scan(s, i);
    ScanTokens(s, i);
    forall p | i <= p < |s|
      ensures StartsToken(s, p) <==> StartsAt(sps, p)
    {
      if StartsToken(s, p) {
        ScanReaches(s, i, p);
      }
      if StartsAt(sps, p) {
        var k :| 0 <= k < |sps| && sps[k].start == p;
        var w := s[p..sps[k].end];
        assert w[0] == s[p] && w[1] == s[p + 1];
      }
    }
  }

  /**
   * The result is empty exactly when no sign is directly followed by a digit;
   * unsigned runs of digits never produce a token.
   */
  lemma ExtractCoordsEmpty(s: string)
    ensures ExtractCoords(s) == [] <==> forall p :: 0 <= p < |s| ==> !StartsToken(s, p)
  {
    ScanFindsEverySign(s, 0);
    if ExtractCoords(s) != [] {
      var sp := Scan(s, 0)[0];
      assert StartsAt(Scan(s, 0), sp.start);
    }
  }

  /** A maximal word of the pattern at `i` is taken whole, and the scan resumes after it. */
  lemma ScanTakes(s: string, i: nat, e: nat)
    requires i + 2 <= e <= |s|
    requires IsToken(s[i..e]) && Maximal(s, Span(i, e))
    ensures Scan(s, i) == [Span(i, e)] + Scan(s, e)
  {
    TokenEndUnique(s, i, e);
  }

  /** Every character of `w` lies outside the class `[+|-]`. */
  predicate NoSign(w: string) {
    forall c :: c in w ==> !IsSign(c)
  }

  /** A stretch without sign characters is passed over without effect. */
  lemma {:induction false} ScanSkips(s: string, i: nat, j: nat)
    requires i <= j <= |s|
    requires NoSign(s[i..j])
    ensures Scan(s, i) == Scan(s, j)
    decreases j - i
  {
    if i < j {
      assert s[i..j][0] == s[i];
      assert s[i + 1..j] == s[i..j][1..];
      ScanSkips(s, i + 1, j);
    }
  }

  /** Every span of `sps`, moved `d` characters to the right. */
  function Shift(sps: seq<Span>, d: nat): (r: seq<Span>)
    ensures |r| == |sps|
    ensures forall k :: 0 <= k < |r| ==> r[k] == Span(sps[k].start + d, sps[k].end + d)
  {
    seq(|sps|, k requires 0 <= k < |sps| => Span(sps[k].start + d, sps[k].end + d))
  }

  /** Whether a match begins at a position depends only on what follows it. */
  lemma StartsTokenShift(p: string, r: string, i: nat)
    requires i < |r|
    ensures StartsToken(p + r, |p| + i) == StartsToken(r, i)
  {
    if i + 1 < |r| {
      assert (p + r)[|p| + i] == r[i] && (p + r)[|p| + i + 1] == r[i + 1];
    }
  }

  /** Where a match ends depends only on the text from its start on. */
  lemma TokenEndShift(p: string, r: string, i: nat)
    requires StartsToken(r, i)
    ensures StartsToken(p + r, |p| + i)
    ensures TokenEnd(p + r, |p| + i) == |p| + TokenEnd(r, i)
  {
    var s, e := p + r, TokenEnd(r, i);
    TokenEndMaximal(r, i);
    assert s[|p| + i..|p| + e] == r[i..e];
    if e < |r| {
      assert s[|p| + e] == r[e];
    }
    TokenEndUnique(s, |p| + i, |p| + e);
  }

  /** One step of `ScanShift` where no match begins. */
  lemma ScanShiftSkip(p: string, r: string, i: nat)
    requires i < |r| && !StartsToken(r, i)
    requires Scan(p + r, |p| + i + 1) == Shift(Scan(r, i + 1), |p|)
    ensures Scan(p + r, |p| + i) == Shift(Scan(r, i), |p|)
  {
    StartsTokenShift(p, r, i);
  }

  /** Where a match begins, the scan takes it and resumes at its end. */
  lemma ScanUnfoldTake(s: string, i: nat)
    requires StartsToken(s, i)
    ensures Scan(s, i) == [Span(i, TokenEnd(s, i))] + Scan(s, TokenEnd(s, i))
  {
  }

  /** Shifting a list shifts its first span and the rest alike. */
  lemma ShiftCons(x: Span, rest: seq<Span>, d: nat)
    ensures Shift([x] + rest, d) == [Span(x.start + d, x.end + d)] + Shift(rest, d)
  {
    assert forall k :: 1 <= k < |rest| + 1 ==> ([x] + rest)[k] == rest[k - 1];
  }

  /** One step of `ScanShift` where a match begins. */
  lemma {:induction false} ScanShiftTake(p: string, r: string, i: nat)
    requires i < |r| && StartsToken(r, i)
    requires Scan(p + r, |p| + TokenEnd(r, i)) == Shift(Scan(r, TokenEnd(r, i)), |p|)
    ensures Scan(p + r, |p| + i) == Shift(Scan(r, i), |p|)
  {
    var s, e := p + r, TokenEnd(r, i);
    TokenEndShift(p, r, i);
    calc {
      Scan(s, |p| + i);
    == { ScanUnfoldTake(s, |p| + i); }
      [Span(|p| + i, |p| + e)] + Scan(s, |p| + e);
    == { ShiftCons(Span(i, e), Scan(r, e), |p|); }
      Shift([Span(i, e)] + Scan(r, e), |p|);
    == { ScanUnfoldTake(r, i); }
      Shift(Scan(r, i), |p|);
    }
  }

  /** The scan of `p + r` from inside `r` is the scan of `r`, moved by `|p|`. */
  lemma {:induction false} ScanShift(p: string, r: string, i: nat)
    requires i <= |r|
    ensures Scan(p + r, |p| + i) == Shift(Scan(r, i), |p|)
    decreases |r| - i
  {
    if i < |r| {
      if StartsToken(r, i) {
        ScanShift(p, r, TokenEnd(r, i));
        ScanShiftTake(p, r, i);
      } else {
        ScanShift(p, r, i + 1);
        ScanShiftSkip(p, r, i);
      }
    }
  }

  /** Text without a sign character yields no coordinates. */
  lemma ExtractCoordsNoSign(a: string)
    requires NoSign(a)
    ensures ExtractCoords(a) == []
  {
    assert a[0..|a|] == a;
    ScanSkips(a, 0, |a|);
  }

  /** The spans found in sign-free text, then a word of the pattern that the rest does not extend, then the rest. */
  lemma ScanConcat(a: string, t: string, r: string)
    requires NoSign(a) && IsToken(t)
    requires r == [] || (!IsDigit(r[0]) && (r[0] == '.' ==> '.' in t))
    ensures Scan(a + t + r, 0) == [Span(|a|, |a| + |t|)] + Shift(Scan(r, 0), |a| + |t|)
  {
    var s := a + t + r;
    var n := |a| + |t|;
    assert s[..|a|] == a && s[|a|..n] == t && s == (a + t) + r;
    if r != [] {
      assert s[n] == r[0];
    }
    calc {
      Scan(s, 0);
    == { assert s[0..|a|] == a; ScanSkips(s, 0, |a|); }
      Scan(s, |a|);
    == { ScanTakes(s, |a|, n); }
      [Span(|a|, n)] + Scan(s, n);
    == { ScanShift(a + t, r, 0); }
      [Span(|a|, n)] + Shift(Scan(r, 0), n);
    }
  }

  /** The texts of shifted spans over `p + r` are the texts of the spans over `r`. */
  lemma {:induction false} TextsShift(p: string, r: string, sps: seq<Span>)
    requires InBounds(r, sps)
    ensures InBounds(p + r, Shift(sps, |p|))
    ensures Texts(p + r, Shift(sps, |p|)) == Texts(r, sps)
  {
    if sps != [] {
      assert Shift(sps, |p|)[1..] == Shift(sps[1..], |p|);
      assert (p + r)[|p| + sps[0].start..|p| + sps[0].end] == r[sps[0].start..sps[0].end];
      TextsShift(p, r, sps[1..]);
    }
  }

  /** Texts of a scan that opens with one span and goes on with the scan of `r`, shifted past `q`. */
  lemma ExtractCoordsFront(q: string, r: string, x: Span)
    requires x.start <= x.end <= |q|
    requires Scan(q + r, 0) == [x] + Shift(Scan(r, 0), |q|)
    ensures ExtractCoords(q + r) == [q[x.start..x.end]] + ExtractCoords(r)
  {
    var s, rest := q + r, Scan(r, 0);
    var sps := [x] + Shift(rest, |q|);
    assert sps[1..] == Shift(rest, |q|);
    assert s[x.start..x.end] == q[x.start..x.end];
    TextsShift(q, r, rest);
    assert Texts(s, sps) == [s[x.start..x.end]] + Texts(s, sps[1..]);
  }

  /**
   * Coordinates of a concatenation: sign-free text, then a word of the
   * pattern that the rest does not extend, then the rest.
   */
  lemma ExtractCoordsConcat(a: string, t: string, r: string)
    requires NoSign(a) && IsToken(t)
    requires r == [] || (!IsDigit(r[0]) && (r[0] == '.' ==> '.' in t))
    ensures ExtractCoords(a + t + r) == [t] + ExtractCoords(r)
  {
    var q, x := a + t, Span(|a|, |a| + |t|);
    ScanConcat(a, t, r);
    assert q[x.start..x.end] == t;
    ExtractCoordsFront(q, r, x);
  }

  /** The text before the first coordinate of the WKT fixtures holds no sign. */
  lemma WktPrefixNoSign()
    ensures NoSign("[[{'type': 'Point', 'asWKT': ['Point (")
  {
  }

  /**
   * tests/fixtures.py:93-96: both coordinates of a WKT point, verbatim. The
   * fixture's text is written as literals joined where each token begins
   * and ends.
   */
  lemma WktFixture(s: string)
    requires s == "[[{'type': 'Point', 'asWKT': ['Point (" + " " + "+023.599440" + " +038.463610 )']}]]"
    ensures ExtractCoords(s) == ["+023.599440", "+038.463610"]
  {
    WktPrefixNoSign();
    assert NoSign(" ");
    var a, t := "[[{'type': 'Point', 'asWKT': ['Point (" + " ", "+023.599440";
    var tail := " +038.463610 )']}]]";
    assert IsToken(t) && tail[0] == ' ';
    WktFixtureTail(tail);
    ExtractCoordsConcat(a, t, tail);
  }

  lemma WktFixtureTail(tail: string)
    requires tail == " " + "+038.463610" + " )']}]]"
    ensures ExtractCoords(tail) == ["+038.463610"]
  {
    assert NoSign(" ") && IsToken("+038.463610") && NoSign(" )']}]]");
    ExtractCoordsNoSign(" )']}]]");
    ExtractCoordsConcat(" ", "+038.463610", " )']}]]");
  }

  /**
   * tests/fixtures.py:97-101: "+038," yields "+038", since a ',' cannot
   * continue a match; the scan goes on to the points that follow. The
   * fixture's text is written as literals joined where each token begins
   * and ends.
   */
  lemma WktCommaFixture(s: string)
    requires s == "[[{'type': 'Point', 'asWKT': ['Point (" + "-023.599440"
                  + (" " + "+038" + (",         " + "+038.463610" + (" " + "+038.463610" + " )']}]]")))
    ensures ExtractCoords(s) == ["-023.599440", "+038", "+038.463610", "+038.463610"]
    ensures ExtractCoords(s)[..2] == ["-023.599440", "+038"]
  {
    var a := "[[{'type': 'Point', 'asWKT': ['Point (";
    var t1 := " " + "+038" + (",         " + "+038.463610" + (" " + "+038.463610" + " )']}]]"));
    WktPrefixNoSign();
    WktCommaFixtureHead(s, a, t1);
    WktCommaFixtureRest(t1);
  }

  lemma WktCommaFixtureHead(s: string, a: string, t1: string)
    requires s == a + "-023.599440" + t1 && NoSign(a) && t1 != [] && t1[0] == ' '
    ensures ExtractCoords(s) == ["-023.599440"] + ExtractCoords(t1)
  {
    assert IsToken("-023.599440");
    ExtractCoordsConcat(a, "-023.599440", t1);
  }

  lemma WktCommaFixtureRest(t1: string)
    requires t1 == " " + "+038" + (",         " + "+038.463610" + (" " + "+038.463610" + " )']}]]"))
    ensures ExtractCoords(t1) == ["+038", "+038.463610", "+038.463610"]
  {
    var t2 := ",         " + "+038.463610" + (" " + "+038.463610" + " )']}]]");
    var t3 := " " + "+038.463610" + " )']}]]";
    WktFixtureTail(t3);
    assert NoSign(",         ") && IsToken("+038.463610") && t3[0] == ' ';
    ExtractCoordsConcat(",         ", "+038.463610", t3);
    assert NoSign(" ") && IsToken("+038") && t2[0] == ',';
    ExtractCoordsConcat(" ", "+038", t2);
  }

  /** The class `[+|-]` admits '|', so "|12" is a token like "+12" (pylobid/utils.py:5). */
  lemma PipeSignExample(s: string)
    requires s == "|12"
    ensures ExtractCoords(s) == ["|12"]
  {
    assert IsToken("|12") && NoSign([]);
    ExtractCoordsNoSign([]);
    ExtractCoordsConcat([], "|12", []);
    assert s == [] + "|12" + [];
  }
}
