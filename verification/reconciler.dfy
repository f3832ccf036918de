/** The site-metadata update of the `publish` command: the items of the
    scanned table are compared with the items of the freshly generated
    metadata, a put is queued for every new or changed item and a delete for
    every old item whose id no longer occurs, the actions go to the store in
    batches of 25, and whatever the store leaves unprocessed is retried once.

    Items are DynamoDB items in their JSON form (`{ "Id": { "S": "..." },
    "UsedEntryIds": { "SS": [ ... ] }, ... }`); the store is a parameter that
    answers each batch with the actions it left unprocessed, or fails. */
module Reconciler {
  import opened Wrappers
  import opened Seqs
  import opened StrOrder
  import opened Chains
  import Json

  /** A value of the DynamoDB JSON text: a string, a boolean, an array of
      strings (the `SS` sets the publisher stores) or an object. */
  datatype Attr =
    | Text(s: string)
    | Flag(b: bool)
    | List(items: seq<string>)
    | Obj(props: seq<(string, Attr)>)

  /** An item, or any other object, as its properties in key order. */
  type Item = seq<(string, Attr)>

  function Digit(d: nat): char
    requires d < 10
  {
    "0123456789"[d]
  }

  /** Decimal notation of `n`, the property name of an array index. */
  function NatToString(n: nat): (r: string)
    ensures |r| > 0
  {
    if n < 10 then [Digit(n)] else NatToString(n / 10) + [Digit(n % 10)]
  }

  /** An object or an array seen through `Object.keys` and `[key]`: an array
      has one property per index. */
  function ObjectView(v: Attr): (r: Item)
    requires v.Obj? || v.List?
    ensures v.Obj? ==> r == v.props
    ensures v.List? ==> |r| == |v.items| && forall i :: 0 <= i < |r| ==> r[i].1 == Text(v.items[i])
  {
    if v.Obj? then v.props
    else seq(|v.items|, i requires 0 <= i < |v.items| => (NatToString(i), Text(v.items[i])))
  }

  /** Two string arrays as the comparison treats them: same length, and equal
      element by element once both are sorted. */
  predicate ListsEqual(x: seq<string>, y: seq<string>) {
    |x| == |y| && SortStrings(x) == SortStrings(y)
  }

  /** The list comparison holds exactly for permutations. */
  lemma ListsEqualIffPermutation(x: seq<string>, y: seq<string>)
    ensures ListsEqual(x, y) <==> multiset(x) == multiset(y)
  {
    SortEqIffPermutation(x, y);
    if multiset(x) == multiset(y) {
      assert |x| == |multiset(x)| == |multiset(y)| == |y|;
    }
  }

  /** `equalItems` as written: the loop returns while examining the first
      key, so only that key is compared; an object without keys leaves the
      loop and yields `undefined`, which counts as unequal. The first key is
      the first in the item's order: `Object.keys` would list integer-like
      names first, and the table's attribute names are never integer-like. */
  function EqualItemsAsWritten(a: Item, b: Item): bool
    decreases Obj(a)
  {
    if |a| != |b| || |a| == 0 then false
    else
      match Json.Get(b, a[0].0)
      case None => false
      case Some(v2) =>
        match a[0].1
        case List(x) => v2.List? && ListsEqual(x, v2.items)
        case Obj(p) => (v2.Obj? || v2.List?) && EqualItemsAsWritten(p, ObjectView(v2))
        case _ => v2 == a[0].1
  }

  /** The comparison the function evidently intends: the same number of keys,
      and every key of the first present in the second with an equal value. */
  function EqualItems(a: Item, b: Item): bool
    decreases Obj(a), 1
  {
    |a| == |b| && KeysMatch(a, b, 0)
  }

  /** The keys of `a` from position `i` on all match. */
  function KeysMatch(a: Item, b: Item, i: nat): bool
    requires i <= |a|
    decreases Obj(a), 0, |a| - i
  {
    i == |a| ||
    (Json.Get(b, a[i].0).Some? && EqualValues(a[i].1, Json.Get(b, a[i].0).value) && KeysMatch(a, b, i + 1))
  }

  function EqualValues(v1: Attr, v2: Attr): bool
    decreases v1, 2
  {
    match v1
    case List(x) => v2.List? && ListsEqual(x, v2.items)
    case Obj(p) => (v2.Obj? || v2.List?) && EqualItems(p, ObjectView(v2))
    case _ => v2 == v1
  }

  /** JSON text never repeats a property name within one object. */
  ghost predicate WfItem(p: Item)
    decreases Obj(p), 0
  {
    && (forall i, j :: 0 <= i < j < |p| ==> p[i].0 != p[j].0)
    && (forall i :: 0 <= i < |p| ==> Wf(p[i].1))
  }

  ghost predicate Wf(v: Attr)
    decreases v, 1
  {
    v.Obj? ==> WfItem(v.props)
  }

  /** Every well-formed item compares equal to itself. */
  lemma EqualItemsReflexive(p: Item)
    requires WfItem(p)
    ensures EqualItems(p, p)
    decreases Obj(p), 1
  {
    KeysMatchSelf(p, 0);
  }

  lemma {:induction false} KeysMatchSelf(p: Item, k: nat)
    requires WfItem(p)
    requires k <= |p|
    ensures KeysMatch(p, p, k)
    decreases Obj(p), 0, |p| - k
  {
    if k < |p| {
      assert Json.Get(p, p[k].0) == Some(p[k].1);
      EqualValuesReflexive(p[k].1);
      KeysMatchSelf(p, k + 1);
    }
  }

  /** Key `a[i].0` is present in `b` with a value equal to `a[i].1`. */
  predicate KeyMatchAt(a: Item, b: Item, i: nat)
    requires i < |a|
  {
    Json.Get(b, a[i].0).Some? && EqualValues(a[i].1, Json.Get(b, a[i].0).value)
  }

  /** The intended comparison holds exactly when the items have as many keys
      and every key of the first, not just the first key, matches in the
      second. */
  lemma EqualItemsIff(a: Item, b: Item)
    ensures EqualItems(a, b) <==> |a| == |b| && forall i :: 0 <= i < |a| ==> KeyMatchAt(a, b, i)
  {
    KeysMatchIff(a, b, 0);
  }

  lemma {:induction false} KeysMatchIff(a: Item, b: Item, k: nat)
    requires k <= |a|
    ensures KeysMatch(a, b, k) <==> forall i :: k <= i < |a| ==> KeyMatchAt(a, b, i)
    decreases |a| - k
  {
    if k < |a| {
      KeysMatchIff(a, b, k + 1);
      assert KeysMatch(a, b, k) <==> KeyMatchAt(a, b, k) && KeysMatch(a, b, k + 1);
    }
  }

  lemma EqualValuesReflexive(v: Attr)
    requires Wf(v)
    ensures EqualValues(v, v)
    decreases v, 2
  {
    match v
    case Obj(p) => EqualItemsReflexive(p);
    case _ =>
  }

  /** Two lists compare equal exactly when they hold the same strings, in
      any order. */
  lemma ListValuesIffPermutation(x: seq<string>, y: seq<string>)
    ensures EqualValues(List(x), List(y)) <==> multiset(x) == multiset(y)
  {
    ListsEqualIffPermutation(x, y);
  }

  /** Items that differ only after their first key compare equal as written,
      but not under the intended comparison. */
  lemma OnlyFirstKeyCompared()
    ensures EqualItemsAsWritten(StoredPage(["x"]), StoredPage(["y"]))
    ensures !EqualItems(StoredPage(["x"]), StoredPage(["y"]))
  {
    var a := StoredPage(["x"]);
    var b := StoredPage(["y"]);
    assert Json.Get(b, "Id") == Some(Obj([("S", Text("a"))]));
    assert Json.Get([("S", Text("a"))], "S") == Some(Text("a"));
    assert Json.Get(b, "UsedEntryIds") == Some(Obj([("SS", List(["y"]))]));
    assert Json.Get([("SS", List(["y"]))], "SS") == Some(List(["y"]));
    ListsEqualIffPermutation(["x"], ["y"]);
    assert multiset(["x"]) != multiset(["y"]) by {
      assert "x" in multiset(["x"]) && "x" !in multiset(["y"]);
    }
  }

  /** A page record of the metadata table with the given used entry ids. */
  function StoredPage(used: seq<string>): Item {
    [("Id", Obj([("S", Text("a"))])), ("UsedEntryIds", Obj([("SS", List(used))]))]
  }

  /** `String(xs)` for an array of strings. */
  function Join(xs: seq<string>): string {
    if |xs| == 0 then ""
    else if |xs| == 1 then xs[0]
    else xs[0] + "," + Join(xs[1..])
  }

  /** A value used as a property name; `undefined` becomes `"undefined"`. */
  function PropertyKey(v: Option<Attr>): string {
    match v
    case None => "undefined"
    case Some(Text(s)) => s
    case Some(Flag(b)) => if b then "true" else "false"
    case Some(List(xs)) => Join(xs)
    case Some(Obj(_)) => "[object Object]"
  }

  /** `id.S` as a property name. */
  function IdKey(id: Attr): string {
    PropertyKey(if id.Obj? then Json.Get(id.props, "S") else None)
  }

  /** `item.Id.S`; reading `S` of a missing `Id` throws. */
  function ItemKey(item: Item): (r: Result<string, Json.TypeError>)
    ensures r.Success? <==> Json.Get(item, "Id").Some?
    ensures r.Success? ==> r.value == IdKey(Json.Get(item, "Id").value)
  {
    match Json.Get(item, "Id")
    case None => Failure(Json.TypeError("Cannot read property 'S' of undefined"))
    case Some(id) => Success(IdKey(id))
  }

  /** The table the items describe: keyed by id, a later item with the same
      id replacing an earlier one. Items without an id are not stored. */
  function TableOf(items: seq<Item>): map<string, Item> {
    if |items| == 0 then map[]
    else
      var t := TableOf(items[..|items| - 1]);
      var item := items[|items| - 1];
      match ItemKey(item)
      case Success(k) => t[k := item]
      case Failure(_) => t
  }

  datatype Action = Put(item: Item) | Delete(id: Attr)

  /** One action applied to the table. */
  function ApplyOne(t: map<string, Item>, a: Action): map<string, Item> {
    match a
    case Put(item) =>
      (match ItemKey(item)
       case Success(k) => t[k := item]
       case Failure(_) => t)
    case Delete(id) => t - {IdKey(id)}
  }

  function Apply(t: map<string, Item>, acts: seq<Action>): map<string, Item> {
    if |acts| == 0 then t else ApplyOne(Apply(t, acts[..|acts| - 1]), acts[|acts| - 1])
  }

  lemma ApplySnoc(t: map<string, Item>, acts: seq<Action>, a: Action)
    ensures Apply(t, acts + [a]) == ApplyOne(Apply(t, acts), a)
  {
    assert (acts + [a])[..|acts|] == acts;
  }

  lemma {:induction false} ApplyAppend(t: map<string, Item>, a: seq<Action>, b: seq<Action>)
    ensures Apply(t, a + b) == Apply(Apply(t, a), b)
  {
    if |b| == 0 {
      assert a + b == a;
    } else {
      assert (a + b)[..|a + b| - 1] == a + b[..|b| - 1];
      ApplyAppend(t, a, b[..|b| - 1]);
    }
  }

  /** The map of old items by id, as an object: its keys in insertion order
      and, per key, the item's `Id` value and the item. */
  datatype OldItems = OldItems(keys: seq<string>, entries: map<string, (Attr, Item)>)

  ghost predicate Valid(o: OldItems) {
    && NoDup(o.keys)
    && Elems(o.keys) == o.entries.Keys
    && forall k :: k in o.entries ==> IdKey(o.entries[k].0) == k
  }

  /** `map[k] = item`: a new key goes last, an existing key keeps its place. */
  function Assign(o: OldItems, k: string, id: Attr, item: Item): (r: OldItems)
    requires Valid(o) && IdKey(id) == k
    ensures Valid(r)
    ensures r.entries == o.entries[k := (id, item)]
  {
    if k in o.entries then OldItems(o.keys, o.entries[k := (id, item)])
    else
      ElemsSnoc(o.keys, k);
      OldItems(o.keys + [k], o.entries[k := (id, item)])
  }

  /** `delete map[k]`. */
  function Unset(o: OldItems, k: string): (r: OldItems)
    requires Valid(o)
    ensures Valid(r)
    ensures r.entries == o.entries - {k}
  {
    OldItems(RemoveFirst(o.keys, k), o.entries - {k})
  }

  /** Every item has an `Id`. */
  ghost predicate AllKeyed(items: seq<Item>) {
    forall i :: 0 <= i < |items| ==> ItemKey(items[i]).Success?
  }

  lemma AllKeyedSnoc(items: seq<Item>)
    requires |items| > 0
    ensures AllKeyed(items) <==> AllKeyed(items[..|items| - 1]) && ItemKey(items[|items| - 1]).Success?
  {
    assert forall i :: 0 <= i < |items| - 1 ==> items[..|items| - 1][i] == items[i];
  }

  /** The loop that indexes the scanned items by id. */
  function IndexOld(olds: seq<Item>): (r: Result<OldItems, Json.TypeError>)
    ensures r.Success? <==> AllKeyed(olds)
    ensures r.Success? ==> Valid(r.value)
    ensures r.Success? ==> r.value.entries.Keys == TableOf(olds).Keys
    ensures r.Success? ==> forall k :: k in r.value.entries ==> r.value.entries[k].1 == TableOf(olds)[k]
  {
    if |olds| == 0 then Success(OldItems([], map[]))
    else
      var front := olds[..|olds| - 1];
      var item := olds[|olds| - 1];
      AllKeyedSnoc(olds);
      match IndexOld(front)
      case Failure(e) => Failure(e)
      case Success(o) =>
        match Json.Get(item, "Id")
        case None => Failure(Json.TypeError("Cannot read property 'S' of undefined"))
        case Some(id) => Success(Assign(o, IdKey(id), id, item))
  }

  /** The ids of the items, in order; items without an id have none. */
  function KeysOf(items: seq<Item>): (r: set<string>)
    ensures r == TableOf(items).Keys
  {
    if |items| == 0 then {}
    else
      match ItemKey(items[|items| - 1])
      case Success(k) => KeysOf(items[..|items| - 1]) + {k}
      case Failure(_) => KeysOf(items[..|items| - 1])
  }

  /** The loop over the new items: each one's id is taken out of the map of
      old items, and a put is queued unless an old item with that id was
      still there and compares equal. */
  function Puts(o: OldItems, news: seq<Item>, eq: (Item, Item) -> bool): (r: Result<(seq<Action>, OldItems), Json.TypeError>)
    requires Valid(o)
    ensures r.Success? <==> AllKeyed(news)
    ensures r.Success? ==> Valid(r.value.1) && r.value.1.entries == o.entries - KeysOf(news)
    ensures r.Success? ==> forall i :: 0 <= i < |r.value.0| ==> r.value.0[i].Put? && r.value.0[i].item in news
  {
    if |news| == 0 then Success(([], o))
    else
      var front := news[..|news| - 1];
      var item := news[|news| - 1];
      SnocSplit(news);
      AllKeyedSnoc(news);
      match Puts(o, front, eq)
      case Failure(e) => Failure(e)
      case Success(prev) =>
        match ItemKey(item)
        case Failure(e) => Failure(e)
        case Success(k) =>
          var rest := prev.1;
          var add := k !in rest.entries || !eq(rest.entries[k].1, item);
          PutsSnoc(prev.0, front, item, add);
          var acts := if add then prev.0 + [Put(item)] else prev.0;
          assert KeysOf(news) == KeysOf(front) + {k};
          MapMinusMinus(o.entries, KeysOf(front), {k});
          Success((acts, Unset(rest, k)))
  }

  /** Queuing the put of the next item, or not, keeps every queued action a
      put of an item seen so far. */
  lemma PutsSnoc(acts0: seq<Action>, front: seq<Item>, item: Item, add: bool)
    requires forall i :: 0 <= i < |acts0| ==> acts0[i].Put? && acts0[i].item in front
    ensures var acts := if add then acts0 + [Put(item)] else acts0;
      forall i :: 0 <= i < |acts| ==> acts[i].Put? && acts[i].item in front + [item]
  {
  }

  lemma MapMinusMinus<K, V>(m: map<K, V>, a: set<K>, b: set<K>)
    ensures m - a - b == m - (a + b)
  {
  }

  /** A delete for every key left in the map, in key order. */
  function Deletes(keys: seq<string>, entries: map<string, (Attr, Item)>): (r: seq<Action>)
    ensures forall i :: 0 <= i < |r| ==> r[i].Delete?
  {
    if |keys| == 0 then []
    else
      var k := keys[|keys| - 1];
      Deletes(keys[..|keys| - 1], entries) + if k in entries then [Delete(entries[k].0)] else []
  }

  /** The actions of one update: puts for new or changed items, then deletes
      for the old ids the new metadata no longer has. */
  function Diff(olds: seq<Item>, news: seq<Item>, eq: (Item, Item) -> bool): (r: Result<seq<Action>, Json.TypeError>)
    ensures r.Success? <==> AllKeyed(olds) && AllKeyed(news)
    ensures r.Success? ==> forall i, j :: 0 <= i < j < |r.value| && r.value[i].Delete? ==> r.value[j].Delete?
    ensures r.Success? ==> forall a :: a in r.value && a.Put? ==> a.item in news
  {
    match IndexOld(olds)
    case Failure(e) => Failure(e)
    case Success(o) =>
      match Puts(o, news, eq)
      case Failure(e) => Failure(e)
      case Success(p) =>
        var dels := Deletes(p.1.keys, p.1.entries);
        assert forall i :: 0 <= i < |p.0 + dels| ==> (p.0 + dels)[i] == if i < |p.0| then p.0[i] else dels[i - |p.0|];
        Success(p.0 + dels)
  }

  /** What the puts leave behind, stated against the table the old items
      describe: ids the new items lack are untouched, and every id they have
      holds the last new item with that id, or still the old item when that
      compared equal to it. */
  ghost predicate PutsOutcome(t0: map<string, Item>, news: seq<Item>, eq: (Item, Item) -> bool, r: map<string, Item>) {
    && (forall k :: k !in KeysOf(news) ==> (k in r <==> k in t0))
    && (forall k :: k !in KeysOf(news) && k in r ==> r[k] == t0[k])
    && (forall k :: k in KeysOf(news) ==> k in r)
    && (forall k :: k in KeysOf(news) ==>
          || r[k] == TableOf(news)[k]
          || (k in t0 && eq(t0[k], TableOf(news)[k]) && r[k] == t0[k]))
  }

  /** The table holds the ids of the new items and nothing else, each with
      its new item, or with the old item when that compared equal to it. */
  ghost predicate Converged(t0: map<string, Item>, news: seq<Item>, eq: (Item, Item) -> bool, r: map<string, Item>) {
    && r.Keys == TableOf(news).Keys
    && forall k :: k in r ==>
         || r[k] == TableOf(news)[k]
         || (k in t0 && eq(t0[k], TableOf(news)[k]) && r[k] == t0[k])
  }

  lemma {:induction false} PutsConverge(o: OldItems, t0: map<string, Item>, news: seq<Item>, eq: (Item, Item) -> bool)
    requires Valid(o)
    requires o.entries.Keys == t0.Keys
    requires forall k :: k in o.entries ==> o.entries[k].1 == t0[k]
    requires Puts(o, news, eq).Success?
    ensures PutsOutcome(t0, news, eq, Apply(t0, Puts(o, news, eq).value.0))
  {
    if |news| > 0 {
      var front := news[..|news| - 1];
      var item := news[|news| - 1];
      SnocSplit(news);
      AllKeyedSnoc(news);
      PutsConverge(o, t0, front, eq);
      PutsLast(o, t0, news, eq);
      OutcomeSnoc(t0, front, item, ItemKey(item).value, eq, Apply(t0, Puts(o, front, eq).value.0),
                  Apply(t0, Puts(o, news, eq).value.0));
    }
  }

  /** The effect of the last new item's step on the table. */
  lemma PutsLast(o: OldItems, t0: map<string, Item>, news: seq<Item>, eq: (Item, Item) -> bool)
    requires Valid(o)
    requires o.entries.Keys == t0.Keys
    requires forall k :: k in o.entries ==> o.entries[k].1 == t0[k]
    requires |news| > 0 && Puts(o, news, eq).Success?
    ensures var front := news[..|news| - 1];
            var item := news[|news| - 1];
            var k := ItemKey(item).value;
            var r0 := Apply(t0, Puts(o, front, eq).value.0);
            var r := Apply(t0, Puts(o, news, eq).value.0);
            || r == r0[k := item]
            || (k !in KeysOf(front) && k in t0 && eq(t0[k], item) && r == r0)
  {
    var front := news[..|news| - 1];
    var item := news[|news| - 1];
    AllKeyedSnoc(news);
    var prev := Puts(o, front, eq).value;
    var k := ItemKey(item).value;
    var rest := prev.1;
    var put := k !in rest.entries || !eq(rest.entries[k].1, item);
    var acts := Puts(o, news, eq).value.0;
    if put {
      assert acts == prev.0 + [Put(item)];
      ApplySnoc(t0, prev.0, Put(item));
    } else {
      assert acts == prev.0;
      assert k in o.entries && k !in KeysOf(front);
      assert rest.entries[k] == o.entries[k];
    }
  }

  lemma OutcomeSnoc(t0: map<string, Item>, front: seq<Item>, item: Item, k: string, eq: (Item, Item) -> bool,
                    r0: map<string, Item>, r: map<string, Item>)
    requires ItemKey(item) == Success(k)
    requires PutsOutcome(t0, front, eq, r0)
    requires || r == r0[k := item]
             || (k !in KeysOf(front) && k in t0 && eq(t0[k], item) && r == r0)
    ensures PutsOutcome(t0, front + [item], eq, r)
  {
    var news := front + [item];
    assert news[..|news| - 1] == front;
    assert KeysOf(news) == KeysOf(front) + {k};
    assert TableOf(news) == TableOf(front)[k := item];
  }

  lemma {:induction false} DeletesRemove(r: map<string, Item>, keys: seq<string>, entries: map<string, (Attr, Item)>)
    requires forall k :: k in keys ==> k in entries && IdKey(entries[k].0) == k
    ensures Apply(r, Deletes(keys, entries)) == r - Elems(keys)
  {
    if |keys| > 0 {
      var front := keys[..|keys| - 1];
      var k := keys[|keys| - 1];
      assert keys == front + [k];
      DeletesRemove(r, front, entries);
      ApplyAppend(r, Deletes(front, entries), [Delete(entries[k].0)]);
      var one: seq<Action> := [Delete(entries[k].0)];
      assert one[..0] == [];
      ElemsSnoc(front, k);
    } else {
      var empty: set<string> := {};
      assert Elems(keys) == empty;
      assert r - empty == r;
    }
  }

  /** Applying the actions of a successful diff to the table the old items
      describe converges it on the new items. */
  lemma DiffConverges(olds: seq<Item>, news: seq<Item>, eq: (Item, Item) -> bool)
    requires Diff(olds, news, eq).Success?
    ensures Converged(TableOf(olds), news, eq, Apply(TableOf(olds), Diff(olds, news, eq).value))
  {
    var t0 := TableOf(olds);
    var o := IndexOld(olds).value;
    var p := Puts(o, news, eq).value;
    var dels := Deletes(p.1.keys, p.1.entries);
    assert Diff(olds, news, eq).value == p.0 + dels;
    PutsConverge(o, t0, news, eq);
    var r := Apply(t0, p.0);
    ApplyAppend(t0, p.0, dels);
    DeletesRemove(r, p.1.keys, p.1.entries);
    assert Elems(p.1.keys) == t0.Keys - KeysOf(news);
    OutcomeAfterDeletes(t0, news, eq, r);
  }

  lemma OutcomeAfterDeletes(t0: map<string, Item>, news: seq<Item>, eq: (Item, Item) -> bool, r: map<string, Item>)
    requires PutsOutcome(t0, news, eq, r)
    ensures Converged(t0, news, eq, r - (t0.Keys - KeysOf(news)))
  {
  }

  /** Ids no two of the items share. */
  ghost predicate DistinctIds(items: seq<Item>) {
    && (forall i :: 0 <= i < |items| ==> ItemKey(items[i]).Success?)
    && (forall i, j :: 0 <= i < j < |items| ==> ItemKey(items[i]).value != ItemKey(items[j]).value)
  }

  lemma {:induction false} TableOfDistinct(items: seq<Item>, i: nat)
    requires DistinctIds(items)
    requires i < |items|
    ensures ItemKey(items[i]).value in TableOf(items)
    ensures TableOf(items)[ItemKey(items[i]).value] == items[i]
  {
    var front := items[..|items| - 1];
    assert forall a :: 0 <= a < |front| ==> front[a] == items[a];
    if i < |items| - 1 {
      TableOfDistinct(front, i);
      assert ItemKey(items[i]).value != ItemKey(items[|items| - 1]).value;
    }
  }

  /** Every id in `KeysOf(items)` is the id of one of the items. */
  lemma {:induction false} KeysOfMembers(items: seq<Item>, k: string)
    requires forall i :: 0 <= i < |items| ==> ItemKey(items[i]).Success?
    ensures k in KeysOf(items) ==> exists i :: 0 <= i < |items| && ItemKey(items[i]).value == k
  {
    if |items| > 0 && k in KeysOf(items) {
      var n := |items| - 1;
      var front := items[..n];
      assert KeysOf(items) == KeysOf(front) + {ItemKey(items[n]).value};
      if k != ItemKey(items[n]).value {
        KeysOfMembers(front, k);
        var a :| 0 <= a < |front| && ItemKey(front[a]).value == k;
        assert front[a] == items[a];
      }
    }
  }

  /** The `i`-th item has an id that no earlier item has, and the map
      holds an item under that id that compares equal to it. */
  ghost predicate IdleAt(o: OldItems, all: seq<Item>, i: nat, eq: (Item, Item) -> bool)
    requires i < |all|
  {
    && ItemKey(all[i]).Success?
    && ItemKey(all[i]).value !in KeysOf(all[..i])
    && ItemKey(all[i]).value in o.entries
    && eq(o.entries[ItemKey(all[i]).value].1, all[i])
  }

  lemma {:induction false} PutsIdle(o: OldItems, all: seq<Item>, n: nat, eq: (Item, Item) -> bool)
    requires Valid(o) && n <= |all|
    requires forall i :: 0 <= i < |all| ==> IdleAt(o, all, i, eq)
    ensures Puts(o, all[..n], eq).Success? && Puts(o, all[..n], eq).value.0 == []
  {
    if n > 0 {
      PutsIdle(o, all, n - 1, eq);
      assert IdleAt(o, all, n - 1, eq);
      PutsSkips(o, all[..n - 1], all[n - 1], eq);
      TakeSnoc(all, n);
    }
  }

  /** With distinct ids, the `n`-th item's id is not among those before it. */
  lemma IdNotInFront(all: seq<Item>, n: nat)
    requires DistinctIds(all)
    requires 0 < n <= |all|
    ensures ItemKey(all[n - 1]).value !in KeysOf(all[..n - 1])
  {
    var front := all[..n - 1];
    var k := ItemKey(all[n - 1]).value;
    KeysOfMembers(front, k);
    forall i | 0 <= i < |front|
      ensures ItemKey(front[i]).value != k
    {
      assert front[i] == all[i];
    }
  }

  /** After a prefix that queued nothing, an item whose id is new to the
      walk and still in the map with an equal item queues nothing either. */
  lemma PutsSkips(o: OldItems, front: seq<Item>, item: Item, eq: (Item, Item) -> bool)
    requires Valid(o)
    requires Puts(o, front, eq).Success? && Puts(o, front, eq).value.0 == []
    requires ItemKey(item).Success?
    requires var k := ItemKey(item).value;
      k in o.entries && k !in KeysOf(front) && eq(o.entries[k].1, item)
    ensures Puts(o, front + [item], eq).Success? && Puts(o, front + [item], eq).value.0 == []
  {
    var news := front + [item];
    assert news[..|news| - 1] == front && news[|news| - 1] == item;
  }

  /** Once the table holds exactly the new items, a second diff queues
      nothing, as long as the comparison finds each item equal to itself. */
  lemma DiffIdle(items: seq<Item>, eq: (Item, Item) -> bool)
    requires DistinctIds(items)
    requires forall i :: 0 <= i < |items| ==> eq(items[i], items[i])
    ensures Diff(items, items, eq) == Success([])
  {
    var o := IndexOld(items).value;
    forall i | 0 <= i < |items|
      ensures IdleAt(o, items, i, eq)
    {
      TableOfDistinct(items, i);
      IdNotInFront(items, i + 1);
      assert eq(items[i], items[i]);
    }
    PutsIdle(o, items, |items|, eq);
    assert items[..|items|] == items;
    var p := Puts(o, items, eq).value;
    assert p.0 == [];
    assert p.1.entries.Keys == {};
    ElemsEmpty(p.1.keys);
    assert Deletes(p.1.keys, p.1.entries) == [];
    assert Diff(items, items, eq) == Success(p.0 + Deletes(p.1.keys, p.1.entries));
    var none: seq<Action> := [];
    assert p.0 + Deletes(p.1.keys, p.1.entries) == none + none == none;
  }

  /** The same holds for the intended comparison on well-formed items. */
  lemma DiffIdleEqualItems(items: seq<Item>)
    requires DistinctIds(items)
    requires forall i :: 0 <= i < |items| ==> WfItem(items[i])
    ensures Diff(items, items, EqualItems) == Success([])
  {
    forall i | 0 <= i < |items| ensures EqualItems(items[i], items[i]) {
      EqualItemsReflexive(items[i]);
    }
    DiffIdle(items, EqualItems);
  }

  /** As written, a page record whose used entry ids changed is not
      rewritten: the table keeps the stale record. The intended comparison
      queues the put. */
  lemma StaleRecordKept()
    ensures Diff([StoredPage(["x"])], [StoredPage(["y"])], EqualItemsAsWritten) == Success([])
    ensures Diff([StoredPage(["x"])], [StoredPage(["y"])], EqualItems) == Success([Put(StoredPage(["y"]))])
  {
    OnlyFirstKeyCompared();
    SinglePageDiff(EqualItemsAsWritten);
    SinglePageDiff(EqualItems);
  }

  /** The diff of one stored page against its successor with the same id. */
  lemma SinglePageDiff(eq: (Item, Item) -> bool)
    ensures Diff([StoredPage(["x"])], [StoredPage(["y"])], eq) ==
      if eq(StoredPage(["x"]), StoredPage(["y"])) then Success([]) else Success([Put(StoredPage(["y"]))])
  {
    var a := StoredPage(["x"]);
    var b := StoredPage(["y"]);
    var id := Obj([("S", Text("a"))]);
    assert Json.Get(a, "Id") == Some(id);
    assert Json.Get(b, "Id") == Some(id);
    assert Json.Get(id.props, "S") == Some(Text("a"));
    assert ItemKey(a) == Success("a") && ItemKey(b) == Success("a");
    var olds := [a];
    var news := [b];
    assert olds[..0] == [] && news[..0] == [];
    assert IdKey(id) == "a";
    var empty := OldItems([], map[]);
    var o := OldItems(["a"], map["a" := (id, a)]);
    assert IndexOld(olds[..0]) == Success(empty);
    assert empty.keys + ["a"] == ["a"];
    assert Assign(empty, "a", id, a) == o;
    assert IndexOld(olds) == Success(o);
    var none: seq<Action> := [];
    assert Puts(o, news[..0], eq) == Success((none, o));
    assert none + [Put(b)] == [Put(b)];
    var acts: seq<Action> := if eq(a, b) then [] else [Put(b)];
    assert Puts(o, news, eq) == Success((acts, Unset(o, "a")));
    assert Unset(o, "a").keys == [];
    assert Deletes([], Unset(o, "a").entries) == none;
    assert acts + none == acts;
  }

  /** The number of actions one batch-write request carries. */
  const BatchSize: nat := 25

  /** The store's answer to the `n`-th batch-write call: the actions it left
      unprocessed, or the failure of the call. */
  type Store = Call<seq<Action>, Action>

  /** `executeUpdateSiteMetadataTableBatches`: the actions in batches of 25. */
  function Round(acts: seq<Action>, store: Store, first: nat): Exchange<seq<Action>, Action> {
    SendAll(Chunk(acts, BatchSize), store, first)
  }

  /** The batches of the first round, those of the retry, and the error the
      update ends with, if any. */
  datatype Sync = Sync(first: seq<seq<Action>>, retry: seq<seq<Action>>, error: Option<string>)

  /** The actions of one update sent to the store: no call at all when there
      is nothing to do; otherwise one round, and a single retry of exactly the
      actions the store left unprocessed; anything still unprocessed after
      the retry is an error. */
  function Push(acts: seq<Action>, store: Store): (r: Sync)
    ensures |acts| == 0 <==> r.first == []
    ensures |acts| == 0 ==> r == Sync([], [], None)
    ensures |r.first| <= |Chunk(acts, BatchSize)| && r.first == Chunk(acts, BatchSize)[..|r.first|]
    ensures r.error.None? ==> Flatten(r.first) == acts
    ensures r.retry != [] ==>
      && Round(acts, store, 0).result.Success?
      && |Round(acts, store, 0).result.value| > 0
      && |r.retry| <= |Chunk(Round(acts, store, 0).result.value, BatchSize)|
      && r.retry == Chunk(Round(acts, store, 0).result.value, BatchSize)[..|r.retry|]
      && (r.error.None? ==> Flatten(r.retry) == Round(acts, store, 0).result.value)
    ensures r.error.None? && |acts| > 0 && r.retry == [] ==> Round(acts, store, 0).result == Success([])
    ensures r.error.None? && r.retry != [] ==>
      Round(Round(acts, store, 0).result.value, store, |r.first|).result == Success([])
    ensures r.error.Some? && r.retry == [] ==> Round(acts, store, 0).result.Failure?
  {
    if |acts| == 0 then Sync([], [], None)
    else
      var one := Round(acts, store, 0);
      SentPrefix(Chunk(acts, BatchSize), store, 0);
      if one.result.Failure? then Sync(one.sent, [], Some(one.result.error))
      else if |one.result.value| == 0 then Sync(one.sent, [], None)
      else
        var two := Round(one.result.value, store, |one.sent|);
        SentPrefix(Chunk(one.result.value, BatchSize), store, |one.sent|);
        if two.result.Failure? then Sync(one.sent, two.sent, Some(two.result.error))
        else if |two.result.value| > 0 then Sync(one.sent, two.sent, Some("Unable to update site metadata table."))
        else Sync(one.sent, two.sent, None)
  }

  /** The metadata-table update of the `publish` command: a malformed item
      fails it before any call; otherwise the diff's actions are pushed. */
  function UpdateMetadata(olds: seq<Item>, news: seq<Item>, eq: (Item, Item) -> bool, store: Store): (r: Sync)
    ensures !(AllKeyed(olds) && AllKeyed(news)) ==> r.first == [] && r.retry == [] && r.error.Some?
    ensures AllKeyed(olds) && AllKeyed(news) ==> r == Push(Diff(olds, news, eq).value, store)
  {
    match Diff(olds, news, eq)
    case Failure(e) => Sync([], [], Some(e.what))
    case Success(acts) => Push(acts, store)
  }

  /** A store that processes every action: one round, no retry, no error. */
  lemma AllProcessedNoRetry(acts: seq<Action>, store: Store)
    requires |acts| > 0
    requires forall n, b :: store(n, b) == Success([])
    ensures Push(acts, store) == Sync(Chunk(acts, BatchSize), [], None)
  {
    SilentRound(acts, store, 0);
  }

  lemma SilentRound(acts: seq<Action>, store: Store, first: nat)
    requires forall n, b :: store(n, b) == Success([])
    ensures Round(acts, store, first) == Exchange(Chunk(acts, BatchSize), Success([]))
  {
    var bs := Chunk(acts, BatchSize);
    var answers := Answers(bs, store, first);
    assert forall i :: 0 <= i < |answers| ==> answers[i] == [];
    FlattenNil(answers);
  }

  /** A store that leaves every action unprocessed: the whole list is sent
      twice, and the update fails after the one retry. */
  lemma NothingProcessedFails(acts: seq<Action>, store: Store)
    requires |acts| > 0
    requires forall n, b :: store(n, b) == Success(b)
    ensures Push(acts, store).first == Chunk(acts, BatchSize)
    ensures Push(acts, store).retry == Chunk(acts, BatchSize)
    ensures Push(acts, store).error.Some?
  {
    EchoRound(acts, store, 0);
    EchoRound(acts, store, |Chunk(acts, BatchSize)|);
  }

  lemma EchoRound(acts: seq<Action>, store: Store, first: nat)
    requires forall n, b :: store(n, b) == Success(b)
    ensures Round(acts, store, first) == Exchange(Chunk(acts, BatchSize), Success(acts))
  {
    var bs := Chunk(acts, BatchSize);
    var answers := Answers(bs, store, first);
    forall i | 0 <= i < |bs| ensures answers[i] == bs[i] {
      assert store(first + i, bs[i]) == Success(bs[i]);
    }
    assert answers == bs;
    assert Flatten(answers) == acts;
  }
}
