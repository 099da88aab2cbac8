/** Parsed JSON values and the Python operators the tools apply to them. */
module Json {
  import opened Wrappers
  import Text

  /** A value as `json.load` returns it: objects become dicts, arrays lists. */
  datatype Json =
    | JNull
    | JBool(b: bool)
    | JNum(n: real)
    | JStr(s: string)
    | JArr(items: seq<Json>)
    | JObj(fields: map<string, Json>)

  /** The Python exceptions the tools raise, let through, or catch. */
  datatype PyError =
    | TypeError
    | KeyError
    | AttributeError
    | ValueError(message: string)
    | FileNotFound
    | JsonDecodeError

  /** A transcript file as the tools find it: absent, or present with its text and the result of
      parsing that text as JSON (`None` when `json.load` raises). */
  datatype FileState = Missing | Present(contents: string, parsed: Option<Json>)

  /** Python truthiness: `None`, `False`, zero and empty strings, lists and dicts are false. */
  predicate Truthy(v: Json) {
    match v
    case JNull => false
    case JBool(b) => b
    case JNum(n) => n != 0.0
    case JStr(s) => s != []
    case JArr(items) => items != []
    case JObj(fields) => fields != map[]
  }

  /** The falsy values are exactly `None`, `False`, `0`, `""`, `[]` and `{}`. */
  lemma FalsyValues(v: Json)
    ensures !Truthy(v) <==>
      v == JNull || v == JBool(false) || v == JNum(0.0) || v == JStr([]) || v == JArr([]) || v == JObj(map[])
  {
  }

  /** Python's `key in container` for a string key: dict keys, list members, substrings; any
      other value raises `TypeError`. */
  function PyIn(key: string, container: Json): Result<bool, PyError>
  {
    match container
    case JObj(fields) => Success(key in fields)
    case JArr(items) => Success(JStr(key) in items)
    case JStr(s) => Success(Text.Contains(s, key))
    case _ => Failure(TypeError)
  }

  /** What `key in container` answers: key membership for a dict, an equal string element for
      a list, an occurrence for a string; every other value raises `TypeError`. */
  lemma PyInMeaning(key: string, container: Json)
    ensures container.JObj? ==> PyIn(key, container) == Success(key in container.fields)
    ensures container.JArr? ==> (PyIn(key, container) == Success(true) <==>
      exists i :: 0 <= i < |container.items| && container.items[i] == JStr(key))
    ensures container.JStr? ==> (PyIn(key, container) == Success(true) <==>
      exists i :: Text.OccursAt(container.s, key, i))
    ensures PyIn(key, container).Failure? <==> !(container.JObj? || container.JArr? || container.JStr?)
  {
    if container.JStr? {
      Text.ContainsIff(container.s, key);
    }
  }

  /** Python's `container[key]` for a string key: only a dict holding the key answers. */
  function PyGet(container: Json, key: string): Result<Json, PyError>
  {
    match container
    case JObj(fields) => if key in fields then Success(fields[key]) else Failure(KeyError)
    case _ => Failure(TypeError)
  }

  /** `key in value and isinstance(value[key], kind)`, with the exceptions it can raise: a
      list or string that holds `key` cannot be indexed by it, and other scalars have no `in`. */
  function HasField(value: Json, key: string, kind: Json -> bool): (r: Result<bool, PyError>)
    ensures value.JObj? ==> r == Success(key in value.fields && kind(value.fields[key]))
    ensures r == Success(true) ==> value.JObj? && key in value.fields && kind(value.fields[key])
    ensures (value.JNull? || value.JBool? || value.JNum?) ==> r == Failure(TypeError)
    ensures r.Failure? ==> r.error == TypeError
  {
    var present :- PyIn(key, value);
    if !present then Success(false)
    else
      var field :- PyGet(value, key);
      Success(kind(field))
  }

  /** `isinstance(v, str)`. */
  predicate IsStr(v: Json) {
    v.JStr?
  }

  /** `isinstance(v, list)`. */
  predicate IsList(v: Json) {
    v.JArr?
  }
}
