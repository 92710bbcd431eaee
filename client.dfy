/**
 * The client of pylobid/pylobid.py, `PyLobidClient`: its constants, the GND
 * identifier extractor `extract_id` and the lobid URL builder
 * `get_entity_lobid_url`.
 */
module LobidClient {
  import opened Text

  /** `BASE_URL` (pylobid/pylobid.py:56). */
  const BaseUrl: string := "http://lobid.org/gnd"

  /** `ID_PATTERN` (pylobid/pylobid.py:57); `IsGndId` and `ExtractId` implement it. */
  const IdPattern: string := "([0-9]+-*[0-9]*)$"

  /** `HEADERS` (pylobid/pylobid.py:65-67), sent with every request. */
  const Headers: map<string, string> := map["Accept" := "application/json"]

  /** `TEST_IDS` (pylobid/pylobid.py:58-64). */
  const TestIds: seq<string> := [
    "http://d-nb.info/gnd/118650130",
    "http://d-nb.info/gnd/4003366-1",
    "https://d-nb.info/gnd/16254097-8",
    "141768134",
    "http://lobid.org/gnd/4075434-0"
  ]

  predicate AllDigits(w: string) {
    forall k :: 0 <= k < |w| ==> IsDigit(w[k])
  }

  predicate AllHyphens(w: string) {
    forall k :: 0 <= k < |w| ==> w[k] == '-'
  }

  /** `-*[0-9]*`: hyphens, then digits. */
  predicate HyphensThenDigits(w: string)
    decreases |w|
  {
    AllDigits(w) || (w[0] == '-' && HyphensThenDigits(w[1..]))
  }

  /** `[0-9]*-*[0-9]*`: what may follow the first digit of an identifier. */
  predicate AfterFirstDigit(w: string)
    decreases |w|
  {
    || w == []
    || (IsDigit(w[0]) && AfterFirstDigit(w[1..]))
    || (w[0] == '-' && HyphensThenDigits(w[1..]))
  }

  /** The words of `[0-9]+-*[0-9]*`, read left to right as the pattern is. */
  predicate IsGndId(w: string) {
    |w| > 0 && IsDigit(w[0]) && AfterFirstDigit(w[1..])
  }

  /**
   * The text `$` closes a match against. Without MULTILINE, Python's `$`
   * matches at the very end and also just before one final newline; a match
   * of digits and hyphens cannot hold that newline, so it is dropped.
   */
  function Anchored(s: string): (t: string)
    ensures t == s || s == t + ['\n']
    ensures (|s| > 0 && s[|s| - 1] == '\n') <==> s == t + ['\n']
  {
    if |s| > 0 && s[|s| - 1] == '\n' then s[..|s| - 1] else s
  }

  /**
   * The regex search from position `i` on: the first start whose suffix is
   * a word of the pattern wins, because every match must reach the anchor.
   */
  function SearchFrom(t: string, i: nat): (r: Option<string>)
    requires i <= |t|
    ensures r.Some? ==> i + |r.value| <= |t| && r.value == t[|t| - |r.value|..] && IsGndId(r.value)
    ensures r.Some? ==> forall j :: i <= j < |t| - |r.value| ==> !IsGndId(t[j..])
    ensures r.None? ==> forall j :: i <= j <= |t| ==> !IsGndId(t[j..])
    decreases |t| - i
  {
    if IsGndId(t[i..]) then Some(t[i..])
    else if i == |t| then None
    else SearchFrom(t, i + 1)
  }

  /**
   * `extract_id` (pylobid/pylobid.py:10-19): `re.findall(ID_PATTERN, url)[0]`,
   * or `False` (here `None`) when the pattern finds nothing. The identifier
   * is the longest suffix of the anchored text that is a word of the pattern.
   */
  function ExtractId(url: string): (r: Option<string>)
    ensures r.Some? ==> IsGndId(r.value) && |r.value| <= |Anchored(url)|
    ensures r.Some? ==> r.value == Anchored(url)[|Anchored(url)| - |r.value|..]
    ensures r.Some? ==> forall j :: 0 <= j < |Anchored(url)| - |r.value| ==> !IsGndId(Anchored(url)[j..])
    ensures r.None? <==> forall j :: 0 <= j <= |Anchored(url)| ==> !IsGndId(Anchored(url)[j..])
  {
    SearchFrom(Anchored(url), 0)
  }

  /**
   * `get_entity_lobid_url` (pylobid/pylobid.py:21-31): the identifier joined
   * onto `BASE_URL`, or `False` (here `None`) when there is none.
   */
  function GetEntityLobidUrl(url: string): (r: Option<string>)
    ensures r.Some? <==> ExtractId(url).Some?
    ensures r.Some? ==> r.value == BaseUrl + "/" + ExtractId(url).value
  {
    match ExtractId(url)
    case Some(id) => if id != "" then Some(BaseUrl + "/" + id) else None
    case None => None
  }

  /** `PyLobidClient.__str__` (pylobid/pylobid.py:49-50). */
  function ClientStr(): string
  {
    BaseUrl
  }

  /** The client prints as its base URL, the lobid GND endpoint. */
  lemma ClientStrIsBaseUrl()
    ensures ClientStr() == BaseUrl == "http://lobid.org/gnd"
  {
  }

  /**
   * `w` cut at `p` and `q` into the three pieces of the pattern: digits,
   * hyphens, digits.
   */
  predicate Split(w: string, p: nat, q: nat)
    requires p <= q <= |w|
  {
    && (forall k :: 0 <= k < p ==> IsDigit(w[k]))
    && (forall k :: p <= k < q ==> w[k] == '-')
    && (forall k :: q <= k < |w| ==> IsDigit(w[k]))
  }

  lemma {:induction false} HyphensThenDigitsCut(w: string) returns (q: nat)
    requires HyphensThenDigits(w)
    ensures q <= |w| && Split(w, 0, q)
    decreases |w|
  {
    if AllDigits(w) {
      q := 0;
    } else {
      var q' := HyphensThenDigitsCut(w[1..]);
      q := q' + 1;
      assert forall k :: 1 <= k < |w| ==> w[k] == w[1..][k - 1];
    }
  }

  lemma {:induction false} CutHyphensThenDigits(w: string, q: nat)
    requires q <= |w| && Split(w, 0, q)
    ensures HyphensThenDigits(w)
    decreases q
  {
    if q > 0 {
      CutHyphensThenDigits(w[1..], q - 1);
    }
  }

  lemma {:induction false} AfterFirstDigitCut(w: string) returns (p: nat, q: nat)
    requires AfterFirstDigit(w)
    ensures p <= q <= |w| && Split(w, p, q)
    decreases |w|
  {
    if w == [] {
      p, q := 0, 0;
    } else if IsDigit(w[0]) && AfterFirstDigit(w[1..]) {
      var p', q' := AfterFirstDigitCut(w[1..]);
      p, q := p' + 1, q' + 1;
      assert forall k :: 1 <= k < |w| ==> w[k] == w[1..][k - 1];
    } else {
      var q' := HyphensThenDigitsCut(w[1..]);
      p, q := 0, q' + 1;
      assert forall k :: 1 <= k < |w| ==> w[k] == w[1..][k - 1];
    }
  }

  lemma {:induction false} CutAfterFirstDigit(w: string, p: nat, q: nat)
    requires p <= q <= |w| && Split(w, p, q)
    ensures AfterFirstDigit(w)
    decreases |w|
  {
    if w != [] {
      if p > 0 {
        CutAfterFirstDigit(w[1..], p - 1, q - 1);
      } else if q > 0 {
        CutHyphensThenDigits(w[1..], q - 1);
      } else {
        CutAfterFirstDigit(w[1..], 0, 0);
      }
    }
  }

  /**
   * The left-to-right reading of the pattern agrees with its three pieces:
   * an identifier is one or more digits, then hyphens, then digits.
   */
  lemma GndIdSplit(w: string)
    ensures IsGndId(w) <==> exists p, q :: 1 <= p <= q <= |w| && Split(w, p, q)
  {
    if IsGndId(w) {
      var p, q := AfterFirstDigitCut(w[1..]);
      assert forall k :: 1 <= k < |w| ==> w[k] == w[1..][k - 1];
      assert Split(w, p + 1, q + 1);
    }
    if p, q :| 1 <= p <= q <= |w| && Split(w, p, q) {
      CutAfterFirstDigit(w[1..], p - 1, q - 1);
    }
  }

  /** A character that may occur in an identifier. */
  predicate IdChar(c: char) {
    IsDigit(c) || c == '-'
  }

  lemma {:induction false} HyphensThenDigitsChars(w: string)
    requires HyphensThenDigits(w)
    ensures forall k :: 0 <= k < |w| ==> IdChar(w[k])
    decreases |w|
  {
    if !AllDigits(w) {
      HyphensThenDigitsChars(w[1..]);
      assert forall k :: 1 <= k < |w| ==> w[k] == w[1..][k - 1];
    }
  }

  lemma {:induction false} AfterFirstDigitChars(w: string)
    requires AfterFirstDigit(w)
    ensures forall k :: 0 <= k < |w| ==> IdChar(w[k])
    decreases |w|
  {
    if w != [] {
      if IsDigit(w[0]) && AfterFirstDigit(w[1..]) {
        AfterFirstDigitChars(w[1..]);
      } else {
        HyphensThenDigitsChars(w[1..]);
      }
      assert forall k :: 1 <= k < |w| ==> w[k] == w[1..][k - 1];
    }
  }

  /** An identifier starts with a digit and holds nothing but digits and hyphens. */
  lemma GndIdChars(w: string)
    ensures IsGndId(w) ==> IsDigit(w[0]) && forall k :: 0 <= k < |w| ==> IdChar(w[k])
  {
    if IsGndId(w) {
      AfterFirstDigitChars(w[1..]);
      assert forall k :: 1 <= k < |w| ==> w[k] == w[1..][k - 1];
    }
  }

  lemma {:induction false} HyphensAccepted(h: string)
    requires AllHyphens(h)
    ensures HyphensThenDigits(h)
    decreases |h|
  {
    if h != [] {
      HyphensAccepted(h[1..]);
    }
  }

  /** A digit followed by hyphens only is an identifier. */
  lemma DigitThenHyphens(d: char, h: string)
    ensures IsDigit(d) && AllHyphens(h) ==> IsGndId([d] + h)
  {
    assert ([d] + h)[1..] == h;
    if h != [] && AllHyphens(h) {
      HyphensAccepted(h[1..]);
    }
  }

  /** A digit put in front of an identifier gives a longer identifier. */
  lemma GndIdExtend(c: char, w: string)
    ensures IsDigit(c) && IsGndId(w) ==> IsGndId([c] + w)
  {
    assert ([c] + w)[1..] == w;
    if w != [] {
      assert w == [w[0]] + w[1..];
    }
  }

  /**
   * The identifier is the longest one: the character before it, if any,
   * is not a digit.
   */
  lemma ExtractIdPrecededByNonDigit(url: string)
    requires ExtractId(url).Some?
    ensures var t, w := Anchored(url), ExtractId(url).value;
      |w| < |t| ==> !IsDigit(t[|t| - |w| - 1])
  {
    var t, w := Anchored(url), ExtractId(url).value;
    if |w| < |t| {
      var j := |t| - |w| - 1;
      assert t[j..] == [t[j]] + w;
      GndIdExtend(t[j], w);
    }
  }

  /** From a digit on, a text of identifier characters has a last digit followed only by hyphens. */
  lemma LastDigit(t: string, i: nat) returns (k: nat)
    requires i < |t| && IsDigit(t[i])
    ensures i <= k < |t| && IsDigit(t[k])
    ensures forall m :: k < m < |t| ==> t[m] == '-'
    requires forall m :: i <= m < |t| ==> IdChar(t[m])
  {
    k := |t| - 1;
    while !IsDigit(t[k])
      invariant i <= k < |t|
      invariant forall m :: k < m < |t| ==> t[m] == '-'
      decreases k
    {
      k := k - 1;
    }
  }

  /**
   * `extract_id` finds an identifier exactly when the anchored text holds a
   * digit followed by nothing but hyphens.
   */
  lemma ExtractIdSucceeds(url: string)
    ensures var t := Anchored(url);
      ExtractId(url).Some? <==>
      exists k :: 0 <= k < |t| && IsDigit(t[k]) && forall m :: k < m < |t| ==> t[m] == '-'
  {
    var t := Anchored(url);
    if ExtractId(url).Some? {
      FoundHasLastDigit(url);
    } else {
      NoneHasNoLastDigit(url);
    }
  }

  lemma FoundHasLastDigit(url: string)
    requires ExtractId(url).Some?
    ensures var t := Anchored(url);
      exists k :: 0 <= k < |t| && IsDigit(t[k]) && forall m :: k < m < |t| ==> t[m] == '-'
  {
    var t, w := Anchored(url), ExtractId(url).value;
    var i := |t| - |w|;
    GndIdChars(w);
    var k := LastDigit(w, 0);
    assert t[i + k] == w[k];
    assert forall m :: i + k < m < |t| ==> t[m] == w[m - i];
  }

  lemma NoneHasNoLastDigit(url: string)
    requires ExtractId(url).None?
    ensures var t := Anchored(url);
      forall k :: 0 <= k < |t| && IsDigit(t[k]) ==> exists m :: k < m < |t| && t[m] != '-'
  {
    var t := Anchored(url);
    forall k | 0 <= k < |t| && IsDigit(t[k])
      ensures exists m :: k < m < |t| && t[m] != '-'
    {
      assert t[k..] == [t[k]] + t[k + 1..];
      DigitThenHyphens(t[k], t[k + 1..]);
    }
  }

  /** A text whose last character cannot end an identifier yields `False`. */
  lemma ExtractIdFailsOnForeignEnd(url: string)
    requires var t := Anchored(url); t == [] || !IdChar(t[|t| - 1])
    ensures ExtractId(url) == None
  {
    var t := Anchored(url);
    if ExtractId(url).Some? {
      GndIdChars(ExtractId(url).value);
    }
  }

  /**
   * An identifier after a character that can be part of none is extracted
   * whole: `extract_id(prefix + id) == id`.
   */
  lemma ExtractIdAfterSeparator(p: string, w: string)
    requires IsGndId(w)
    requires |p| > 0 ==> !IdChar(p[|p| - 1])
    ensures ExtractId(p + w) == Some(w)
  {
    var t := p + w;
    GndIdChars(w);
    assert t[|t| - 1] == w[|w| - 1];
    assert Anchored(t) == t;
    assert t[|p|..] == w;
    var r := ExtractId(t);
    assert r.Some?;
    GndIdChars(r.value);
  }

  /** `extract_id` applied to its own result returns it unchanged. */
  lemma ExtractIdIdempotent(url: string)
    requires ExtractId(url).Some?
    ensures ExtractId(ExtractId(url).value) == ExtractId(url)
  {
    ExtractIdAfterSeparator([], ExtractId(url).value);
    assert [] + ExtractId(url).value == ExtractId(url).value;
  }

  /** The lobid URL carries the same identifier as the text it was built from. */
  lemma LobidUrlRoundTrip(url: string)
    requires GetEntityLobidUrl(url).Some?
    ensures ExtractId(GetEntityLobidUrl(url).value) == ExtractId(url)
  {
    var id := ExtractId(url).value;
    ExtractIdAfterSeparator(BaseUrl + "/", id);
  }

  /** Building the lobid URL of a lobid URL changes nothing. */
  lemma LobidUrlIdempotent(url: string)
    requires GetEntityLobidUrl(url).Some?
    ensures GetEntityLobidUrl(GetEntityLobidUrl(url).value) == GetEntityLobidUrl(url)
  {
    LobidUrlRoundTrip(url);
  }

  /** A lobid URL of an identifier is its own lobid URL. */
  lemma LobidUrlFixedPoint(id: string)
    requires IsGndId(id)
    ensures GetEntityLobidUrl(BaseUrl + "/" + id) == Some(BaseUrl + "/" + id)
  {
    ExtractIdAfterSeparator(BaseUrl + "/", id);
  }

  /** Every lobid URL is `str(client) + "/"` followed by the identifier. */
  lemma LobidUrlExtendsClientStr(url: string)
    requires GetEntityLobidUrl(url).Some?
    ensures var u := GetEntityLobidUrl(url).value;
      u == ClientStr() + "/" + ExtractId(url).value && u[0] == 'h'
  {
  }

  /**
   * The URL-parser table of the test fixtures, less its one divergent row;
   * each URL is written as its prefix joined to the expected identifier.
   */
  lemma UrlParserFixtures(u: string, id: string)
    requires
      || (u == "http://d-nb.info/gnd/" + id && id == "118650130")
      || (u == "http://d-nb.info/gnd/" + id && id == "4003366-1")
      || (u == "https://d-nb.info/gnd/" + id && id == "16254097-8")
      || (u == "" + id && id == "141768134")
      || (u == "http://lobid.org/gnd/" + id && id == "4075434-0")
    ensures ExtractId(u) == Some(id)
  {
    if id == "118650130" {
      UrlParserRow1(u, id);
    } else if id == "4003366-1" {
      UrlParserRow2(u, id);
    } else if id == "16254097-8" {
      UrlParserRow3(u, id);
    } else if id == "141768134" {
      UrlParserRow4(u, id);
    } else {
      UrlParserRow5(u, id);
    }
  }

  // One lemma per table row keeps each literal comparison small.
  lemma UrlParserRow1(u: string, id: string)
    requires u == "http://d-nb.info/gnd/" + id && id == "118650130"
    ensures ExtractId(u) == Some(id)
  {
    assert Split(id, 9, 9);
    GndIdSplit(id);
    ExtractIdAfterSeparator("http://d-nb.info/gnd/", id);
  }

  lemma UrlParserRow2(u: string, id: string)
    requires u == "http://d-nb.info/gnd/" + id && id == "4003366-1"
    ensures ExtractId(u) == Some(id)
  {
    assert Split(id, 7, 8);
    GndIdSplit(id);
    ExtractIdAfterSeparator("http://d-nb.info/gnd/", id);
  }

  lemma UrlParserRow3(u: string, id: string)
    requires u == "https://d-nb.info/gnd/" + id && id == "16254097-8"
    ensures ExtractId(u) == Some(id)
  {
    assert Split(id, 8, 9);
    GndIdSplit(id);
    ExtractIdAfterSeparator("https://d-nb.info/gnd/", id);
  }

  lemma UrlParserRow4(u: string, id: string)
    requires u == "" + id && id == "141768134"
    ensures ExtractId(u) == Some(id)
  {
    assert Split(id, 9, 9);
    GndIdSplit(id);
    ExtractIdAfterSeparator("", id);
  }

  lemma UrlParserRow5(u: string, id: string)
    requires u == "http://lobid.org/gnd/" + id && id == "4075434-0"
    ensures ExtractId(u) == Some(id)
  {
    assert Split(id, 7, 8);
    GndIdSplit(id);
    ExtractIdAfterSeparator("http://lobid.org/gnd/", id);
  }

  /**
   * The fixture row that expects `12328631X` gets `False`: the pattern
   * admits no letter, and the final `X` leaves no identifier to end the text.
   */
  lemma UrlParserDivergentRow(u: string)
    requires u == "http://lobid.org/gnd/12328631X"
    ensures ExtractId(u) == None
    ensures GetEntityLobidUrl(u) == None
  {
    ExtractIdFailsOnForeignEnd(u);
  }

  /** The invalid URLs of the test fixtures yield no identifier. */
  lemma InvalidUrlsFixtures(u: string)
    requires
      || u == "?!invalid_id"
      || u == "example.com/"
      || u == "https://dnb.de"
      || u == ""
      || u == "http://lobid.org/gnd"
    ensures ExtractId(u) == None
    ensures GetEntityLobidUrl(u) == None
  {
    ExtractIdFailsOnForeignEnd(u);
  }

  /** Once digits follow the hyphens, no further hyphen may come. */
  lemma HyphenDigitHyphen(u: string, j: nat, a: nat, b: nat, c: nat)
    ensures j <= a < b < c < |u| && u[a] == '-' && IsDigit(u[b]) && u[c] == '-' ==> !IsGndId(u[j..])
  {
    if j <= a < b < c < |u| {
      GndIdSplit(u[j..]);
    }
  }

  /**
   * Leftmost-first search with an end anchor: in `12-34-56` only the last
   * two groups form a suffix of the pattern, so `34-56` is returned.
   */
  lemma LeftmostSuffixExample(u: string)
    requires u == "12-34-56"
    ensures ExtractId(u) == Some("34-56")
  {
    var w := u[3..];
    assert Split(w, 2, 3);
    GndIdSplit(w);
    assert Anchored(u) == u;
    var r := ExtractId(u).value;
    HyphenDigitHyphen(u, |u| - |r|, 2, 3, 5);
    assert r == w;
  }
}
