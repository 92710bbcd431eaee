# pylobid core in Dafny

pylobid is a Python client for the lobid GND service, the JSON gateway to the
GND authority file of the German National Library. This project models the
client's pure string routines:

- **`extract_coords`** (`pylobid/utils.py`) turns a WKT geometry string into its
  signed coordinate tokens. `Coords.ExtractCoords` models it as a recursive scanner,
  `Coords.Scan`, over `seq<char>`.
- **`PyLobidClient.extract_id`** finds the GND identifier at the end of a URL.
  `LobidClient.ExtractId` models it as a leftmost search for a suffix that the
  end-anchored pattern `([0-9]+-*[0-9]*)$` accepts.
- **`get_entity_lobid_url`** builds the lobid URL of that identifier.
- **The client's `__str__`** returns the base URL.
- **`PyLobidEntity`** is modelled as a value built once by `__init__` and only
  read afterwards. The model covers `place_of_values` and `__str__`.

The modules are:

- `Text` (`text.dfy`): ASCII digits, plus the `Option` and `Result` wrappers. `None`
  stands for Python's `False` result; `Failure` stands for a raised exception.
- `Coords` (`coords.dfy`): `extract_coords`.
- `LobidClient` (`client.dfy`): the constants `BASE_URL`, `ID_PATTERN`, `TEST_IDS` and
  `HEADERS`, plus `extract_id`, `get_entity_lobid_url` and `__str__`.
- `LobidEntity` (`entity.dfy`): the entity constructor, `place_of_values` and `__str__`.
  A small JSON datatype stands for the fetched document.

Regex details that are modelled explicitly:

- The class `[+|-]` admits `|` as a sign.
- Quantifiers are greedy, and `(?:\.\d*)?` takes a '.' even when no digit
  follows it.
- `findall` resumes after each match, so matches never overlap.
- Without MULTILINE, Python's `$` also matches just before one final
  newline (`LobidClient.Anchored`).
- The search for `extract_id` is leftmost-first, so the identifier is the longest
  suffix that the pattern accepts. Example: `12-34-56` yields `34-56`.

The package's own tests expect more of the identifier than its pattern
accepts; this model follows the pattern:

- The pattern `([0-9]+-*[0-9]*)$` (pylobid/pylobid.py:57) admits only digits
  and hyphens, and it is anchored at the end.
- The test fixtures list `http://lobid.org/gnd/12328631X`, whose identifier
  ends in the check letter `X`, among the valid identifiers
  (tests/fixtures.py:79), and the URL-parser table expects it to yield
  `12328631X` (tests/fixtures.py:88).
- The pattern yields `False` for that URL, because no suffix ending in `X`
  can match (`LobidClient.UrlParserDivergentRow`).
- For the same reason, `test_001_get_entity_lobid_url` indexes `False[0]` for that
  entry, which raises `TypeError` instead of giving `'h'`.

## Model

| member | source | states |
|---|---|---|
| Coords.TokenEndMaximal | pylobid/utils.py:5 | The match that `TokenEnd` gives, from a sign and a digit to where the greedy `\d+(?:\.\d*)?` stops, covers a word of the pattern. The character after it is neither a digit nor a '.' the word could still take. |
| Coords.TokenEndUnique | pylobid/utils.py:5 | Greediness is unique: any maximal word of the pattern that starts at `p` ends exactly where the scanner's match ends. |
| Coords.Scan | pylobid/utils.py:6 | The spans `findall` reports from a position lie in the input after that position, and each is non-empty. |
| Coords.ScanOrdered | pylobid/utils.py:6 | The spans come in increasing order of position and never overlap. |
| Coords.ScanTokens | pylobid/utils.py:5-6 | Every reported span covers a word of `[+\|-]\d+(?:\.\d*)?` that cannot be extended. |
| Coords.ExtractCoords | pylobid/utils.py:4-7 | There is one string per match, in order. Each is the verbatim slice of the input that the match covers, and each is a sign, one or more digits, then optionally '.' and digits. |
| Coords.ScanFindsEverySign | pylobid/utils.py:6 | Completeness: a match begins at a position exactly when a sign there is directly followed by a digit. Nothing is skipped, and nothing else starts a match. |
| Coords.ExtractCoordsEmpty | pylobid/utils.py:5-7 | The result is empty if and only if no sign is directly followed by a digit. |
| Coords.ScanTakes | pylobid/utils.py:6 | A maximal word of the pattern at the scan position is taken whole, and the scan resumes after it. |
| Coords.ScanSkips | pylobid/utils.py:6 | A stretch with no sign character changes nothing in the scan. |
| Coords.ScanShift | pylobid/utils.py:6 | Scanning `p + r` from inside `r` finds the spans of scanning `r` alone, moved by `\|p\|`. |
| Coords.ExtractCoordsNoSign | pylobid/utils.py:5-7 | Text without a sign character yields no coordinates. |
| Coords.ExtractCoordsConcat | pylobid/utils.py:5-7 | Sign-free text, then a word of the pattern the rest cannot extend, then the rest, yields that word followed by the coordinates of the rest. |
| Coords.WktFixture | tests/fixtures.py:93-96 | `Point ( +023.599440 +038.463610 )` yields exactly `['+023.599440', '+038.463610']`. |
| Coords.WktCommaFixture | tests/fixtures.py:97-101 | `+038,` yields `+038`, because ',' ends the match. The continued fixture yields four tokens, and the first two are the ones the test checks. |
| Coords.PipeSignExample | pylobid/utils.py:5 | `\|12` is a coordinate token, because the class `[+\|-]` admits '\|'. |
| LobidClient.Anchored | pylobid/pylobid.py:16 | The text the end anchor closes against is the input, less one final newline exactly when the input ends in a newline. |
| LobidClient.SearchFrom | pylobid/pylobid.py:16 | The search returns the first suffix from the given position that the pattern accepts, and it proves that no earlier start works. `None` means that no suffix from there is accepted. |
| LobidClient.ExtractId | pylobid/pylobid.py:10-19 | A result is a suffix of the anchored input that the pattern accepts, and it is the longest such suffix. `False` (`None`) is returned exactly when no suffix is accepted. |
| LobidClient.GndIdSplit | pylobid/pylobid.py:57 | The left-to-right automaton for the pattern accepts a word exactly when the word is one or more digits, then hyphens, then digits. |
| LobidClient.GndIdChars | pylobid/pylobid.py:57 | An identifier starts with a digit and holds only digits and hyphens. |
| LobidClient.ExtractIdPrecededByNonDigit | pylobid/pylobid.py:16 | The character before the extracted identifier, if there is one, is not a digit. |
| LobidClient.ExtractIdSucceeds | pylobid/pylobid.py:15-19 | An identifier is found if and only if the anchored text holds a digit followed by nothing but hyphens. |
| LobidClient.ExtractIdFailsOnForeignEnd | pylobid/pylobid.py:15-19 | When the anchored text (the input less one final newline) is empty or ends in a character that is neither a digit nor '-', the result is `False`. |
| LobidClient.ExtractIdAfterSeparator | pylobid/pylobid.py:16 | An identifier placed after a character that no identifier can contain is extracted whole. |
| LobidClient.ExtractIdIdempotent | pylobid/pylobid.py:16 | Extracting from an extracted identifier returns it unchanged. |
| LobidClient.GetEntityLobidUrl | pylobid/pylobid.py:21-31 | There is a URL exactly when an identifier is found, and the URL is `BASE_URL + "/" + id`. Otherwise the result is `False`. |
| LobidClient.LobidUrlRoundTrip | pylobid/pylobid.py:21-31 | The lobid URL carries the same identifier as the text it was built from. |
| LobidClient.LobidUrlIdempotent | pylobid/pylobid.py:21-31 | Building the lobid URL of a lobid URL returns the same URL. |
| LobidClient.LobidUrlFixedPoint | pylobid/pylobid.py:21-31 | For every identifier, `BASE_URL/id` is its own lobid URL. |
| LobidClient.ClientStrIsBaseUrl | pylobid/pylobid.py:49-50 | The client prints as `BASE_URL`, `http://lobid.org/gnd` (the check in tests/test_pylobid.py:44-50). |
| LobidClient.LobidUrlExtendsClientStr | pylobid/pylobid.py:49-50 | Every lobid URL is the client's string (`BASE_URL`) plus "/" plus the identifier, so it starts with 'h' (the check in tests/test_pylobid.py:32-36). |
| LobidClient.UrlParserFixtures | tests/fixtures.py:83-90 | Every row of the URL-parser table except the `12328631X` row yields its expected identifier. |
| LobidClient.UrlParserDivergentRow | tests/fixtures.py:88 | `http://lobid.org/gnd/12328631X` yields `False` from both `extract_id` and `get_entity_lobid_url`. |
| LobidClient.InvalidUrlsFixtures | tests/fixtures.py:52-58 | Each invalid URL of the fixtures yields `False` from both functions. |
| LobidClient.LeftmostSuffixExample | pylobid/pylobid.py:16 | `12-34-56` yields `34-56`, the longest accepted suffix. |
| LobidEntity.NewEntity | pylobid/pylobid.py:92-98 | Construction succeeds exactly when an argument is given, an identifier is found in it, and the fetched document is a dictionary with `"type"`. `gnd_id` is then the lobid URL of the argument, `ent_dict` is the document and `ent_type` is its `"type"`. A missing argument, an argument without an identifier, or a non-dictionary raises `TypeError`, and a missing `"type"` raises `KeyError`. |
| LobidEntity.PlaceOfValues | pylobid/pylobid.py:73-79 | A non-empty list under `"placeOf" + place_of` yields its first element, and an empty list raises `IndexError`. A missing key or a value that is not a list yields `False`. |
| LobidEntity.PlaceOfKeyInjective | pylobid/pylobid.py:74 | Different place kinds read different dictionary keys. |
| LobidEntity.PlaceOfValuesIndependent | pylobid/pylobid.py:73-79 | Changing the entry of one place kind does not change the answer for another. |
| LobidEntity.EntityStrIsLobidUrl | pylobid/pylobid.py:89-90 | `str(entity)` of a constructed entity is the lobid URL of its argument, which is `str(client) + "/" + id` and carries the same identifier. |
| LobidEntity.EntityStrFixture | tests/test_pylobid.py:72-79 | An entity built from `http://lobid.org/gnd/4075434-0` prints that same URL. |

## Left out

- `get_entity_json` (pylobid/pylobid.py:33-47) performs an HTTP request and a `print`. The model takes its result as the `fetched` parameter of `LobidEntity.NewEntity`.
  - Its non-ok branch evaluates `False` without returning it, so it returns `None`. `NewEntity` covers that: a `JNull` document raises `TypeError`.
  - Its exception handler (pylobid/pylobid.py:39-43) prints and returns `False`. The model uses that branch where the request must fail, for the URL `False` of an argument without an identifier. For a real URL, a network failure is one more `fetched` value that is not a dictionary.
- `place_of_dict` (pylobid/pylobid.py:81-87) fetches a related entity over HTTP, and its else-branch also returns `None`.
- `HEADERS` (pylobid/pylobid.py:65-67) is only used by the HTTP request. It is kept as a constant.
- pylobid/validators.py calls `factory()`, `GNDIdError` and `GNDNotFoundError`. None of these exists in pylobid/pylobid.py, so the factory and the entity views used by the tests (`PyLobidPerson`, `get_life_dates`, related places) are not part of this model.
- Coords.ExtractCoords: `\d` matches only ASCII digits here. Python's `\d` also matches other Unicode decimal digits.
- LobidClient.ExtractId: the argument is always a string. A `None` argument raises `TypeError` inside `re.findall`; that case is modelled only at the entity constructor, whose default argument is `None`.
- JSON numbers in the fetched document are integers here; floats do not affect any modelled operation.
- The `re.MULTILINE` flag of `extract_coords` has no effect on a pattern without anchors, so it is not modelled.
