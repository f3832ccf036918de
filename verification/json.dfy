/** Parsed JSON content as the publisher sees it: content-entry field values,
    locale maps and link objects. A link object `{ sys: { type: "Link",
    linkType, id } }` is its own constructor so that the link tests of the
    source (`v && v.sys && v.sys.type === "Link" && v.sys.linkType === ...`)
    become a pattern match. Numbers are integers; floating point is not
    modelled. */
module Json {
  import opened Wrappers

  datatype Value =
    | Null
    | Bool(b: bool)
    | Num(n: int)
    | Str(s: string)
    | Link(linkType: string, target: string)
    | Arr(items: seq<Value>)
    | Obj(props: seq<(string, Value)>)

  /** `obj[key]` on a JSON object: the first property with that name. JSON
      text as the publisher receives it repeats no name within one object,
      so the first is the only one. */
  function Get<V>(props: seq<(string, V)>, key: string): (r: Option<V>)
    ensures r.Some? <==> exists i :: 0 <= i < |props| && props[i].0 == key
    ensures r.Some? ==> exists i :: 0 <= i < |props| && props[i] == (key, r.value)
  {
    if |props| == 0 then None
    else if props[0].0 == key then Some(props[0].1)
    else
      var r := Get(props[1..], key);
      assert forall i :: 0 < i < |props| ==> props[i] == props[1..][i - 1];
      r
  }

  /** JavaScript truthiness of a value. Links, arrays and objects are objects,
      hence truthy. */
  predicate Truthy(v: Value) {
    match v
    case Null => false
    case Bool(b) => b
    case Num(n) => n != 0
    case Str(s) => s != ""
    case _ => true
  }

  /** Values compared by value under `===`. */
  predicate Primitive(v: Value) {
    !(v.Link? || v.Arr? || v.Obj?)
  }

  /** `a === b` for two values obtained from separately parsed JSON: objects
      are references, and two separately parsed objects are never the same
      reference. */
  predicate StrictEq(a: Value, b: Value) {
    Primitive(a) && a == b
  }

  /** `a === b` where either side may be `undefined`. */
  predicate StrictEqOpt(a: Option<Value>, b: Option<Value>) {
    (a.None? && b.None?) || (a.Some? && b.Some? && StrictEq(a.value, b.value))
  }

  /** The failure raised when a property is read from `undefined` or `null`. */
  datatype TypeError = TypeError(what: string)

  /** `v.key` in JavaScript, where `v` may be `undefined`: reading a property
      of `undefined` or `null` throws; other non-objects have no properties
      of interest here. */
  function Member(v: Option<Value>, key: string): (r: Result<Option<Value>, TypeError>)
    ensures r.Failure? <==> v.None? || v == Some(Null)
    ensures r.Success? && r.value.Some? ==> v.value.Obj?
  {
    match v
    case None => Failure(TypeError("cannot read property " + key + " of undefined"))
    case Some(Null) => Failure(TypeError("cannot read property " + key + " of null"))
    case Some(Obj(props)) => Success(Get(props, key))
    case Some(_) => Success(None)
  }

  /** The target of `v` when it is an Entry-link. */
  function EntryLinkOf(v: Value): seq<string> {
    if v.Link? && v.linkType == "Entry" then [v.target] else []
  }

  /** The Entry-link targets among the elements of an array, in order. */
  function ItemsEntryLinks(items: seq<Value>): (ts: seq<string>)
    ensures forall t :: t in ts <==> Link("Entry", t) in items
  {
    if |items| == 0 then []
    else
      assert forall v :: v in items <==> v == items[0] || v in items[1..];
      EntryLinkOf(items[0]) + ItemsEntryLinks(items[1..])
  }

  /** The Entry-links of one field value: the value itself when it is a link,
      the elements when it is an array (one level only, as the source does). */
  function FieldEntryLinks(v: Value): (ts: seq<string>)
    ensures v.Arr? ==> forall t :: t in ts <==> Link("Entry", t) in v.items
    ensures !v.Arr? ==> forall t :: t in ts <==> v == Link("Entry", t)
  {
    if v.Arr? then ItemsEntryLinks(v.items) else EntryLinkOf(v)
  }

  /** Position of the last occurrence of `c` in `s`, or -1 (`lastIndexOf`). */
  function LastIndexOf(s: string, c: char): (i: int)
    ensures -1 <= i < |s|
    ensures i >= 0 ==> s[i] == c
    ensures forall k :: i < k < |s| ==> s[k] != c
  {
    if |s| == 0 then -1
    else if s[|s| - 1] == c then |s| - 1
    else LastIndexOf(s[..|s| - 1], c)
  }

  /** `s.substring(from)`: a negative start counts as 0. */
  function SubstringFrom(s: string, from: int): (r: string)
    requires from <= |s|
    ensures from <= 0 ==> r == s
    ensures from > 0 ==> r == s[from..]
  {
    if from <= 0 then s else s[from..]
  }
}
