/**
 * The entity class of pylobid/pylobid.py, `PyLobidEntity`: an entity is
 * built once from a GND URL and the lobid document fetched for it, and is
 * only read afterwards.
 */
module LobidEntity {
  import opened Text
  import opened LobidClient

  /** A decoded lobid JSON document (numbers are integers here). */
  datatype Json =
    | JNull
    | JBool(b: bool)
    | JNum(n: int)
    | JStr(s: string)
    | JArr(items: seq<Json>)
    | JObj(fields: map<string, Json>)

  /** The Python exceptions the entity code can raise. */
  datatype PyError = TypeError | KeyError(key: string) | IndexError

  /**
   * The fields `PyLobidEntity.__init__` sets: `gnd_id` (the lobid URL),
   * `ent_dict` (the fetched document) and `ent_type`. A constructed entity
   * always has a URL: without one the construction raises.
   */
  datatype Entity = Entity(gndId: string, entDict: map<string, Json>, entType: Json)

  /**
   * `PyLobidEntity.__init__` (pylobid/pylobid.py:92-98). The HTTP fetch is a
   * parameter: `fetched` is what `get_entity_json` returned for a URL. A
   * missing argument (`None`) makes the regex raise `TypeError`. An argument
   * without an identifier gives `gnd_id = False`; `get_entity_json` then
   * requests the URL `False`, the request raises, its handler returns
   * `False`, and indexing `False` raises `TypeError`, whatever the server
   * would have sent. Indexing any other fetched value that is not a
   * dictionary raises `TypeError` too, and a dictionary without `"type"`
   * raises `KeyError`.
   */
  function NewEntity(input: Option<string>, fetched: Json): (r: Result<Entity, PyError>)
    ensures r.Success? <==>
      && input.Some?
      && GetEntityLobidUrl(input.value).Some?
      && fetched.JObj?
      && "type" in fetched.fields
    ensures input.None? ==> r == Failure(TypeError)
    ensures input.Some? && GetEntityLobidUrl(input.value).None? ==> r == Failure(TypeError)
    ensures input.Some? && !fetched.JObj? ==> r == Failure(TypeError)
    ensures input.Some? && GetEntityLobidUrl(input.value).Some? && fetched.JObj? && "type" !in fetched.fields ==>
      r == Failure(KeyError("type"))
    ensures r.Success? ==>
      && Some(r.value.gndId) == GetEntityLobidUrl(input.value)
      && JObj(r.value.entDict) == fetched
      && r.value.entType == r.value.entDict["type"]
  {
    match input
    case None => Failure(TypeError)
    case Some(url) =>
      match GetEntityLobidUrl(url)
      case None => Failure(TypeError)
      case Some(gndId) =>
        match fetched
        case JObj(fields) =>
          if "type" in fields then Success(Entity(gndId, fields, fields["type"]))
          else Failure(KeyError("type"))
        case _ => Failure(TypeError)
  }

  /** The dictionary key `place_of_values` reads. */
  function PlaceOfKey(placeOf: string): (k: string)
    ensures |k| == 7 + |placeOf| && k[..7] == "placeOf" && k[7..] == placeOf
  {
    "placeOf" + placeOf
  }

  /**
   * `PyLobidEntity.place_of_values` (pylobid/pylobid.py:73-79); the
   * source's default argument is `"Birth"`. A list value yields its first
   * element, and an empty one raises `IndexError`; any other value, or none,
   * yields `False`.
   */
  function PlaceOfValues(e: Entity, placeOf: string): (r: Result<Json, PyError>)
    ensures r.Failure? <==> PlaceOfKey(placeOf) in e.entDict && e.entDict[PlaceOfKey(placeOf)] == JArr([])
    ensures r.Failure? ==> r.error == IndexError
    ensures var k := PlaceOfKey(placeOf);
      k in e.entDict && e.entDict[k].JArr? && |e.entDict[k].items| > 0 ==>
        r == Success(e.entDict[k].items[0])
    ensures PlaceOfKey(placeOf) !in e.entDict || !e.entDict[PlaceOfKey(placeOf)].JArr? ==>
      r == Success(JBool(false))
  {
    var key := PlaceOfKey(placeOf);
    if key in e.entDict && e.entDict[key].JArr? then
      var items := e.entDict[key].items;
      if |items| > 0 then Success(items[0]) else Failure(IndexError)
    else
      Success(JBool(false))
  }

  /** Different place kinds read different keys. */
  lemma PlaceOfKeyInjective(a: string, b: string)
    requires PlaceOfKey(a) == PlaceOfKey(b)
    ensures a == b
  {
    assert a == PlaceOfKey(a)[7..];
  }

  /** `place_of_values` looks at its own key and at nothing else in the entity. */
  lemma PlaceOfValuesLocal(e1: Entity, e2: Entity, placeOf: string)
    requires var k := PlaceOfKey(placeOf);
      (k in e1.entDict <==> k in e2.entDict) && (k in e1.entDict ==> e1.entDict[k] == e2.entDict[k])
    ensures PlaceOfValues(e1, placeOf) == PlaceOfValues(e2, placeOf)
  {
  }

  /** Setting another place kind leaves the answer for this one unchanged. */
  lemma PlaceOfValuesIndependent(e: Entity, placeOf: string, other: string, v: Json)
    requires other != placeOf
    ensures PlaceOfValues(e.(entDict := e.entDict[PlaceOfKey(other) := v]), placeOf) == PlaceOfValues(e, placeOf)
  {
    if PlaceOfKey(other) == PlaceOfKey(placeOf) {
      PlaceOfKeyInjective(other, placeOf);
    }
    PlaceOfValuesLocal(e.(entDict := e.entDict[PlaceOfKey(other) := v]), e, placeOf);
  }

  /** `PyLobidEntity.__str__` (pylobid/pylobid.py:89-90): the stored lobid URL. */
  function EntityStr(e: Entity): (r: string)
  {
    e.gndId
  }

  /**
   * The string of a constructed entity is the lobid URL of its argument:
   * the client's string, "/", and the identifier of that argument, which
   * it carries unchanged.
   */
  lemma EntityStrIsLobidUrl(input: string, fetched: Json)
    requires NewEntity(Some(input), fetched).Success?
    ensures var e := NewEntity(Some(input), fetched).value;
      && Some(EntityStr(e)) == GetEntityLobidUrl(input)
      && EntityStr(e) == ClientStr() + "/" + ExtractId(input).value
      && ExtractId(EntityStr(e)) == ExtractId(input)
  {
    LobidUrlRoundTrip(input);
  }

  /**
   * An entity built from a lobid URL prints that same URL; the test uses
   * `http://lobid.org/gnd/4075434-0`, written here as `BASE_URL/4075434-0`.
   */
  lemma EntityStrFixture(u: string, id: string, fetched: Json)
    requires u == BaseUrl + "/" + id && id == "4075434-0"
    requires fetched.JObj? && "type" in fetched.fields
    ensures NewEntity(Some(u), fetched).Success?
    ensures EntityStr(NewEntity(Some(u), fetched).value) == u
  {
    assert Split(id, 7, 8);
    GndIdSplit(id);
    LobidUrlFixedPoint(id);
  }
}
