/** The page compiler shared by the publisher and the command-line tools
    (`lib/stacy-runtime.js`): lookup tables of the entries and assets included
    in a content response, the closure of an entry over its Entry-links,
    page generation, and the link-rewriting template helpers. Template
    rendering, Markdown conversion and content-type lookup are parameters. */
module Runtime {
  import opened Wrappers
  import opened Seqs
  import opened Json

  type Id = string

  /** A content entry as delivered with unresolved links; `fields` holds one
      value per field (the delivery API resolves locales). */
  datatype Entry = Entry(id: Id, contentType: Id, fields: Option<seq<(string, Value)>>)

  /** An asset; `url` is `fields.file.url`. */
  datatype Asset = Asset(id: Id, url: string)

  /** The `includes` part of a content response. */
  datatype Includes = Includes(entries: Option<seq<Entry>>, assets: Option<seq<Asset>>)

  /** Lookup tables keyed by id; every table entry carries its own key. */
  type LinkedEntries = m: map<Id, Entry> | forall t :: t in m ==> m[t].id == t
  type LinkedAssets = m: map<Id, Asset> | forall t :: t in m ==> m[t].id == t

  datatype Linked = Linked(entries: LinkedEntries, assets: LinkedAssets)

  // ---------------------------------------------------------------- mapLinked

  /** `xs` keyed by `key`, a later element replacing an earlier one with the
      same key. */
  function IndexBy<T>(xs: seq<T>, key: T -> Id): (m: map<Id, T>)
    ensures forall i :: 0 <= i < |xs| ==> key(xs[i]) in m
    ensures forall k :: k in m ==> key(m[k]) == k
    ensures forall k :: k in m ==>
      exists i :: 0 <= i < |xs| && xs[i] == m[k] && (forall j :: i < j < |xs| ==> key(xs[j]) != k)
  {
    if |xs| == 0 then map[]
    else
      var front := IndexBy(xs[..|xs| - 1], key);
      SnocSplit(xs);
      IndexByStep(xs[..|xs| - 1], xs[|xs| - 1], key, front);
      front[key(xs[|xs| - 1]) := xs[|xs| - 1]]
  }

  /** Adding `x` to an index of `ys`. */
  lemma IndexByStep<T>(ys: seq<T>, x: T, key: T -> Id, front: map<Id, T>)
    requires forall i :: 0 <= i < |ys| ==> key(ys[i]) in front
    requires forall k :: k in front ==> key(front[k]) == k
    requires forall k :: k in front ==>
      exists i :: 0 <= i < |ys| && ys[i] == front[k] && (forall j :: i < j < |ys| ==> key(ys[j]) != k)
    ensures var xs := ys + [x];
      var m := front[key(x) := x];
      && (forall i :: 0 <= i < |xs| ==> key(xs[i]) in m)
      && (forall k :: k in m ==> key(m[k]) == k)
      && (forall k :: k in m ==>
            exists i :: 0 <= i < |xs| && xs[i] == m[k] && (forall j :: i < j < |xs| ==> key(xs[j]) != k))
  {
    var xs := ys + [x];
    var n := |ys|;
    var m := front[key(x) := x];
    forall i | 0 <= i < |xs|
      ensures key(xs[i]) in m
    {
      if i < n {
        assert xs[i] == ys[i];
      }
    }
    forall k | k in m
      ensures exists i :: 0 <= i < |xs| && xs[i] == m[k] && (forall j :: i < j < |xs| ==> key(xs[j]) != k)
    {
      if k == key(x) {
        assert xs[n] == m[k];
      } else {
        var i :| 0 <= i < n && ys[i] == front[k] && (forall j :: i < j < n ==> key(ys[j]) != k);
        assert xs[i] == m[k];
        forall j | i < j < |xs|
          ensures key(xs[j]) != k
        {
          if j < n {
            assert xs[j] == ys[j];
          }
        }
      }
    }
  }

  function EntryKey(e: Entry): Id { e.id }
  function AssetKey(a: Asset): Id { a.id }

  /** `m` finds every element of `xs` by its id, and holds under each id
      the last element of `xs` that carries it. */
  ghost predicate LastById<T>(m: map<Id, T>, xs: seq<T>, key: T -> Id) {
    && (forall i :: 0 <= i < |xs| ==> key(xs[i]) in m)
    && (forall t :: t in m ==>
          exists i :: 0 <= i < |xs| && xs[i] == m[t] && (forall j :: i < j < |xs| ==> key(xs[j]) != t))
  }

  /** `mapLinked`: the included entries and assets by id; a response
      without `includes` (or without one of its lists) gives empty tables. */
  function MapLinked(includes: Option<Includes>): (r: Linked)
    ensures includes.None? || includes.value.entries.None? ==> r.entries == map[]
    ensures includes.None? || includes.value.assets.None? ==> r.assets == map[]
    ensures includes.Some? && includes.value.entries.Some? ==>
      LastById(r.entries, includes.value.entries.value, EntryKey)
    ensures includes.Some? && includes.value.assets.Some? ==>
      LastById(r.assets, includes.value.assets.value, AssetKey)
  {
    Linked(LinkedEntriesOf(includes), LinkedAssetsOf(includes))
  }

  function LinkedEntriesOf(includes: Option<Includes>): (m: LinkedEntries)
    ensures includes.None? || includes.value.entries.None? ==> m == map[]
    ensures includes.Some? && includes.value.entries.Some? ==>
      LastById(m, includes.value.entries.value, EntryKey)
  {
    if includes.Some? && includes.value.entries.Some? then IndexBy(includes.value.entries.value, EntryKey)
    else map[]
  }

  function LinkedAssetsOf(includes: Option<Includes>): (m: LinkedAssets)
    ensures includes.None? || includes.value.assets.None? ==> m == map[]
    ensures includes.Some? && includes.value.assets.Some? ==>
      LastById(m, includes.value.assets.value, AssetKey)
  {
    if includes.Some? && includes.value.assets.Some? then IndexBy(includes.value.assets.value, AssetKey)
    else map[]
  }

  // ------------------------------------------------------- link closure

  /** The Entry-link targets of a field list, field by field: a scalar field
      that is a link, or links among the elements of an array field. */
  function FieldsTargets(fields: seq<(string, Value)>): seq<Id> {
    if |fields| == 0 then [] else FieldEntryLinks(fields[0].1) + FieldsTargets(fields[1..])
  }

  /** The targets are exactly the Entry-links of the fields. Kept apart
      from the function so that proofs about the walk do not carry it. */
  lemma {:induction false} FieldsTargetsMembers(fields: seq<(string, Value)>)
    ensures forall t :: t in FieldsTargets(fields) <==> exists i :: 0 <= i < |fields| && t in FieldEntryLinks(fields[i].1)
  {
    if |fields| > 0 {
      FieldsTargetsMembers(fields[1..]);
      assert forall i :: 0 < i < |fields| ==> fields[i] == fields[1..][i - 1];
    }
  }

  /** The entries an entry links to, in the order they are followed. */
  function Targets(e: Entry): seq<Id> {
    if e.fields.Some? then FieldsTargets(e.fields.value) else []
  }

  /** A set of linked-entry ids that contains the targets of each of its
      members, all of which are in the table. */
  ghost predicate Closed(linked: LinkedEntries, c: set<Id>) {
    forall t :: t in c ==> t in linked && forall u :: u in Targets(linked[t]) ==> u in c
  }

  /** A closed set containing every id in `ts`. */
  ghost predicate ClosedOver(linked: LinkedEntries, c: set<Id>, ts: seq<Id>) {
    Closed(linked, c) && forall t :: t in ts ==> t in c
  }

  /** The work-list invariant: every visited id is in the table and its
      targets are visited or still pending. */
  ghost predicate Pending(linked: LinkedEntries, visited: set<Id>, todo: seq<Id>) {
    forall v :: v in visited ==> v in linked && forall u :: u in Targets(linked[v]) ==> u in visited || u in todo
  }

  /** Depth-first traversal with a visited set: the ids reachable from `todo`
      together with `visited`, or the first target found missing from the
      table. */
  function Collect(linked: LinkedEntries, todo: seq<Id>, visited: set<Id>): (r: Result<set<Id>, Id>)
    requires Pending(linked, visited, todo)
    ensures r.Success? ==> visited <= r.value && ClosedOver(linked, r.value, todo)
    ensures r.Failure? ==> r.error !in linked
    decreases |linked.Keys - visited|, |todo|
  {
    if |todo| == 0 then Success(visited)
    else
      var t := todo[0];
      if t in visited then Collect(linked, todo[1..], visited)
      else if t !in linked then Failure(t)
      else
        var rest := linked.Keys - visited;
        assert t in rest;
        assert linked.Keys - (visited + {t}) == rest - {t};
        Collect(linked, Targets(linked[t]) + todo[1..], visited + {t})
  }

  /** `collectLinkedEntries` started on a page entry: the page's own id and
      every linked entry reachable from it; a reachable link whose target is
      not included fails (`tryCollectEntryLink`). */
  function CollectLinkedEntries(linked: LinkedEntries, page: Entry): (r: Result<set<Id>, Id>)
    ensures r.Success? ==> page.id in r.value && forall t :: t in Targets(page) ==> t in r.value
    ensures r.Success? ==> forall t :: t in r.value && t != page.id ==>
      t in linked && forall u :: u in Targets(linked[t]) ==> u in r.value
    ensures r.Failure? ==> r.error !in linked
  {
    match Collect(linked, Targets(page), {})
    case Success(s) => Success({page.id} + s)
    case Failure(t) => Failure(t)
  }

  /** The traversal stays inside every closed set that covers its work. */
  lemma {:induction false} CollectWithin(linked: LinkedEntries, todo: seq<Id>, visited: set<Id>, c: set<Id>)
    requires Pending(linked, visited, todo)
    requires ClosedOver(linked, c, todo) && visited <= c
    ensures Collect(linked, todo, visited).Success?
    ensures Collect(linked, todo, visited).value <= c
    decreases |linked.Keys - visited|, |todo|
  {
    if |todo| > 0 {
      var t := todo[0];
      if t in visited {
        CollectWithin(linked, todo[1..], visited, c);
      } else {
        var rest := linked.Keys - visited;
        assert t in rest;
        assert linked.Keys - (visited + {t}) == rest - {t};
        CollectWithin(linked, Targets(linked[t]) + todo[1..], visited + {t}, c);
      }
    }
  }

  /** The collected set is the least closed set over the page's links, plus
      the page itself; the collection fails exactly when no closed set covers
      the page's links, that is, when some reachable link is dangling. */
  lemma CollectIsLeastClosure(linked: LinkedEntries, page: Entry)
    ensures CollectLinkedEntries(linked, page).Success? <==>
      exists c :: ClosedOver(linked, c, Targets(page))
    ensures forall c :: ClosedOver(linked, c, Targets(page)) ==>
      CollectLinkedEntries(linked, page).Success? && CollectLinkedEntries(linked, page).value <= {page.id} + c
  {
    var r := Collect(linked, Targets(page), {});
    if r.Success? {
      assert ClosedOver(linked, r.value, Targets(page));
    }
    forall c | ClosedOver(linked, c, Targets(page))
      ensures CollectLinkedEntries(linked, page).Success? && CollectLinkedEntries(linked, page).value <= {page.id} + c
    {
      CollectWithin(linked, Targets(page), {}, c);
    }
  }

  /** The collected set depends only on which entries the page links to, not
      on field order or repetition. */
  lemma CollectOrderIndependent(linked: LinkedEntries, p1: Entry, p2: Entry)
    requires p1.id == p2.id
    requires forall t :: t in Targets(p1) <==> t in Targets(p2)
    ensures CollectLinkedEntries(linked, p1).Success? == CollectLinkedEntries(linked, p2).Success?
    ensures CollectLinkedEntries(linked, p1).Success? ==>
      CollectLinkedEntries(linked, p1).value == CollectLinkedEntries(linked, p2).value
  {
    CollectIsLeastClosure(linked, p1);
    CollectIsLeastClosure(linked, p2);
    var r1 := Collect(linked, Targets(p1), {});
    var r2 := Collect(linked, Targets(p2), {});
    if r1.Success? {
      assert ClosedOver(linked, r1.value, Targets(p2));
      CollectWithin(linked, Targets(p2), {}, r1.value);
      assert ClosedOver(linked, r2.value, Targets(p1));
      CollectWithin(linked, Targets(p1), {}, r2.value);
    }
  }

  // The source's recursion, which has no visited set; `fuel` bounds its
  // depth and `None` means the depth ran out.

  /** `collectLinkedEntries(acc, linked, e)` as written. */
  function CollectAsWritten(linked: LinkedEntries, e: Entry, fuel: nat, acc: set<Id>): Option<Result<set<Id>, Id>>
    decreases fuel, 0, 0
  {
    if fuel == 0 then None
    else CollectListAsWritten(linked, Targets(e), fuel - 1, acc + {e.id})
  }

  /** `tryCollectEntryLink` on each target in turn. */
  function CollectListAsWritten(linked: LinkedEntries, ts: seq<Id>, fuel: nat, acc: set<Id>): Option<Result<set<Id>, Id>>
    decreases fuel, 1, |ts|
  {
    if |ts| == 0 then Some(Success(acc))
    else if ts[0] !in linked then Some(Failure(ts[0]))
    else
      match CollectAsWritten(linked, linked[ts[0]], fuel, acc)
      case None => None
      case Some(Failure(x)) => Some(Failure(x))
      case Some(Success(acc')) => CollectListAsWritten(linked, ts[1..], fuel, acc')
  }

  /** What the source's recursion adds when it returns: exactly a least
      closed set over the targets it was given. */
  lemma {:induction false} ListAsWrittenSuccess(linked: LinkedEntries, ts: seq<Id>, fuel: nat, acc: set<Id>)
    returns (x: set<Id>)
    requires CollectListAsWritten(linked, ts, fuel, acc).Some?
    requires CollectListAsWritten(linked, ts, fuel, acc).value.Success?
    ensures CollectListAsWritten(linked, ts, fuel, acc).value.value == acc + x
    ensures ClosedOver(linked, x, ts)
    ensures forall c :: ClosedOver(linked, c, ts) ==> x <= c
    decreases fuel, |ts|
  {
    if |ts| == 0 {
      x := {};
    } else {
      var t := ts[0];
      var acc1 := ListSuccessStep(linked, ts, fuel, acc);
      var x1 := ListAsWrittenSuccess(linked, Targets(linked[t]), fuel - 1, acc + {t});
      var x2 := ListAsWrittenSuccess(linked, ts[1..], fuel, acc1);
      x := {t} + x1 + x2;
      assert acc1 + x2 == acc + x;
      ClosedStep(linked, ts, x1, x2);
    }
  }

  /** One step of the source's loop over `ts`: the first target's recursion
      returns `acc1`, and the rest of the loop continues from there. */
  lemma ListSuccessStep(linked: LinkedEntries, ts: seq<Id>, fuel: nat, acc: set<Id>) returns (acc1: set<Id>)
    requires |ts| > 0
    requires CollectListAsWritten(linked, ts, fuel, acc).Some?
    requires CollectListAsWritten(linked, ts, fuel, acc).value.Success?
    ensures ts[0] in linked && fuel > 0
    ensures CollectListAsWritten(linked, Targets(linked[ts[0]]), fuel - 1, acc + {ts[0]}) == Some(Success(acc1))
    ensures CollectListAsWritten(linked, ts, fuel, acc) == CollectListAsWritten(linked, ts[1..], fuel, acc1)
  {
    var inner := CollectAsWritten(linked, linked[ts[0]], fuel, acc);
    acc1 := inner.value.value;
  }

  /** The closure found for `ts` is closed and least, given the closures of
      the first target's links and of the remaining targets. */
  lemma ClosedStep(linked: LinkedEntries, ts: seq<Id>, x1: set<Id>, x2: set<Id>)
    requires |ts| > 0 && ts[0] in linked
    requires ClosedOver(linked, x1, Targets(linked[ts[0]]))
    requires forall c :: ClosedOver(linked, c, Targets(linked[ts[0]])) ==> x1 <= c
    requires ClosedOver(linked, x2, ts[1..])
    requires forall c :: ClosedOver(linked, c, ts[1..]) ==> x2 <= c
    ensures ClosedOver(linked, {ts[0]} + x1 + x2, ts)
    ensures forall c :: ClosedOver(linked, c, ts) ==> {ts[0]} + x1 + x2 <= c
  {
    var t := ts[0];
    assert Closed(linked, {t} + x1) by {
      forall v | v in {t} + x1
        ensures v in linked && forall u :: u in Targets(linked[v]) ==> u in {t} + x1
      {
        if v != t {
          assert v in x1;
        }
      }
    }
    ClosedUnion(linked, {t} + x1, x2);
    assert forall u :: u in ts ==> u == t || u in ts[1..];
    forall c | ClosedOver(linked, c, ts)
      ensures {t} + x1 + x2 <= c
    {
      assert ClosedOver(linked, c, Targets(linked[t]));
      assert ClosedOver(linked, c, ts[1..]);
    }
  }

  lemma ClosedUnion(linked: LinkedEntries, a: set<Id>, b: set<Id>)
    requires Closed(linked, a) && Closed(linked, b)
    ensures Closed(linked, a + b)
  {
  }

  /** When the source's recursion throws, no closed set covers the targets. */
  lemma {:induction false} ListAsWrittenFailure(linked: LinkedEntries, ts: seq<Id>, fuel: nat, acc: set<Id>)
    requires CollectListAsWritten(linked, ts, fuel, acc).Some?
    requires CollectListAsWritten(linked, ts, fuel, acc).value.Failure?
    ensures forall c :: !ClosedOver(linked, c, ts)
    decreases fuel, |ts|
  {
    var t := ts[0];
    if t in linked {
      var e := linked[t];
      var inner := CollectAsWritten(linked, e, fuel, acc);
      if inner.value.Failure? {
        ListAsWrittenFailure(linked, Targets(e), fuel - 1, acc + {t});
        forall c | ClosedOver(linked, c, ts)
          ensures false
        {
          assert ClosedOver(linked, c, Targets(e));
        }
      } else {
        ListAsWrittenFailure(linked, ts[1..], fuel, inner.value.value);
        forall c | ClosedOver(linked, c, ts)
          ensures false
        {
          assert ClosedOver(linked, c, ts[1..]);
        }
      }
    }
  }

  /** Whenever the source's recursion returns, it agrees with the traversal:
      the same set on success, a failure on failure. */
  lemma AsWrittenAgrees(linked: LinkedEntries, page: Entry, fuel: nat)
    requires CollectAsWritten(linked, page, fuel, {}).Some?
    ensures CollectAsWritten(linked, page, fuel, {}).value.Success? ==
            CollectLinkedEntries(linked, page).Success?
    ensures CollectLinkedEntries(linked, page).Success? ==>
      CollectAsWritten(linked, page, fuel, {}).value.value == CollectLinkedEntries(linked, page).value
  {
    assert fuel > 0;
    assert CollectAsWritten(linked, page, fuel, {}) == CollectListAsWritten(linked, Targets(page), fuel - 1, {page.id}) by {
      var empty: set<Id> := {};
      assert empty + {page.id} == {page.id};
    }
    ListAsWrittenAgrees(linked, Targets(page), fuel - 1, page.id);
  }

  /** The list form of `AsWrittenAgrees`, over any work list. */
  lemma ListAsWrittenAgrees(linked: LinkedEntries, ts: seq<Id>, fuel: nat, id: Id)
    requires CollectListAsWritten(linked, ts, fuel, {id}).Some?
    ensures CollectListAsWritten(linked, ts, fuel, {id}).value.Success? <==> Collect(linked, ts, {}).Success?
    ensures Collect(linked, ts, {}).Success? ==>
      CollectListAsWritten(linked, ts, fuel, {id}).value.value == {id} + Collect(linked, ts, {}).value
  {
    var s := CollectListAsWritten(linked, ts, fuel, {id}).value;
    var r := Collect(linked, ts, {});
    if s.Success? {
      var x := ListAsWrittenSuccess(linked, ts, fuel, {id});
      CollectWithin(linked, ts, {}, x);
      assert r.value <= x;
      assert ClosedOver(linked, r.value, ts);
      assert x <= r.value;
    } else {
      ListAsWrittenFailure(linked, ts, fuel, {id});
      assert r.Failure?;
    }
  }

  /** Every target in `ts` that is in the table is ranked below `bound`. */
  ghost predicate RankedBelow(linked: LinkedEntries, rank: map<Id, nat>, ts: seq<Id>, bound: nat) {
    forall u :: u in ts && u in linked ==> u in rank && rank[u] < bound
  }

  /** An acyclic link table: following a link strictly lowers the rank. */
  ghost predicate Ranked(linked: LinkedEntries, rank: map<Id, nat>) {
    && linked.Keys <= rank.Keys
    && forall t :: t in linked ==> RankedBelow(linked, rank, Targets(linked[t]), rank[t])
  }

  lemma EntryAsWrittenReturns(linked: LinkedEntries, rank: map<Id, nat>, e: Entry, fuel: nat, acc: set<Id>)
    requires Ranked(linked, rank) && fuel >= 1
    requires RankedBelow(linked, rank, Targets(e), fuel - 1)
    ensures CollectAsWritten(linked, e, fuel, acc).Some?
  {
    ListAsWrittenReturns(linked, rank, Targets(e), fuel - 1, acc + {e.id});
  }

  lemma {:induction false} ListAsWrittenReturns(linked: LinkedEntries, rank: map<Id, nat>, ts: seq<Id>, fuel: nat, acc: set<Id>)
    requires Ranked(linked, rank)
    requires RankedBelow(linked, rank, ts, fuel)
    ensures CollectListAsWritten(linked, ts, fuel, acc).Some?
    decreases fuel, |ts|
  {
    if |ts| > 0 && ts[0] in linked {
      var e := linked[ts[0]];
      RankedBelowStep(linked, rank, ts, fuel);
      ListAsWrittenReturns(linked, rank, Targets(e), fuel - 1, acc + {e.id});
      var inner := EntryAsWrittenUnfold(linked, e, fuel, acc);
      if inner.Success? {
        ListAsWrittenReturns(linked, rank, ts[1..], fuel, inner.value);
      }
      ListAsWrittenStep(linked, ts, fuel, acc, inner);
    }
  }

  /** One level of the source's recursion on an entry, once it returns. */
  lemma EntryAsWrittenUnfold(linked: LinkedEntries, e: Entry, fuel: nat, acc: set<Id>) returns (inner: Result<set<Id>, Id>)
    requires fuel >= 1 && CollectListAsWritten(linked, Targets(e), fuel - 1, acc + {e.id}).Some?
    ensures CollectAsWritten(linked, e, fuel, acc) == Some(inner)
  {
    inner := CollectListAsWritten(linked, Targets(e), fuel - 1, acc + {e.id}).value;
  }

  /** The walk over `ts` returns when its head returns and, on success, so
      does the walk over the rest. */
  lemma ListAsWrittenStep(linked: LinkedEntries, ts: seq<Id>, fuel: nat, acc: set<Id>, inner: Result<set<Id>, Id>)
    requires |ts| > 0 && ts[0] in linked
    requires CollectAsWritten(linked, linked[ts[0]], fuel, acc) == Some(inner)
    requires inner.Success? ==> CollectListAsWritten(linked, ts[1..], fuel, inner.value).Some?
    ensures CollectListAsWritten(linked, ts, fuel, acc).Some?
  {
  }

  /** Below the head of `ts` the rank bound drops by one; after it, it stays. */
  lemma RankedBelowStep(linked: LinkedEntries, rank: map<Id, nat>, ts: seq<Id>, fuel: nat)
    requires Ranked(linked, rank) && RankedBelow(linked, rank, ts, fuel)
    requires |ts| > 0 && ts[0] in linked
    ensures fuel >= 1
    ensures RankedBelow(linked, rank, Targets(linked[ts[0]]), fuel - 1)
    ensures RankedBelow(linked, rank, ts[1..], fuel)
  {
    assert ts[0] in ts;
    assert RankedBelow(linked, rank, Targets(linked[ts[0]]), rank[ts[0]]);
    forall u | u in ts[1..]
      ensures u in ts
    {
    }
  }

  /** On an acyclic table the source's recursion returns once it is given
      more depth than the highest rank, so it then computes exactly the
      traversal's result. */
  lemma AsWrittenReturnsWhenRanked(linked: LinkedEntries, rank: map<Id, nat>, page: Entry, n: nat)
    requires Ranked(linked, rank)
    requires forall t :: t in rank ==> rank[t] < n
    ensures CollectAsWritten(linked, page, n + 1, {}).Some?
    ensures CollectAsWritten(linked, page, n + 1, {}).value.Success? ==>
      CollectAsWritten(linked, page, n + 1, {}).value == CollectLinkedEntries(linked, page)
  {
    EntryAsWrittenReturns(linked, rank, page, n + 1, {});
    AsWrittenAgrees(linked, page, n + 1);
  }

  /** An entry that links to itself sends the source's recursion into
      unbounded depth, while the traversal returns. */
  lemma {:induction false} SelfLinkDiverges(linked: LinkedEntries, t: Id, fuel: nat, acc: set<Id>)
    requires t in linked && Targets(linked[t]) == [t]
    ensures CollectAsWritten(linked, linked[t], fuel, acc).None?
    ensures CollectLinkedEntries(linked, linked[t]) == Success({t})
  {
    SelfLinkRecursion(linked, t, fuel, acc);
    SelfLinkCollected(linked, t);
  }

  lemma {:induction false} SelfLinkRecursion(linked: LinkedEntries, t: Id, fuel: nat, acc: set<Id>)
    requires t in linked && Targets(linked[t]) == [t]
    ensures CollectAsWritten(linked, linked[t], fuel, acc).None?
  {
    if fuel > 0 {
      SelfLinkRecursion(linked, t, fuel - 1, acc + {t});
      var e := linked[t];
      assert CollectAsWritten(linked, e, fuel, acc) == CollectListAsWritten(linked, [t], fuel - 1, acc + {t});
    }
  }

  lemma SelfLinkCollected(linked: LinkedEntries, t: Id)
    requires t in linked && Targets(linked[t]) == [t]
    ensures CollectLinkedEntries(linked, linked[t]) == Success({t})
  {
    assert Targets(linked[t]) + [t][1..] == [t];
    var empty: set<Id> := {};
    assert empty + {t} == {t};
    assert Collect(linked, [t], empty) == Collect(linked, [t], {t});
    assert Collect(linked, [t], {t}) == Collect(linked, [], {t});
  }

  // ---------------------------------------------------------- generatePages

  /** A compiled template: the page or module entry rendered to text, or the
      message of the error a helper threw while rendering it (`module` and
      `assetSrc` throw on links they cannot resolve). */
  type Template = Entry -> Result<string, string>

  /** Per output extension, in configuration order, the templates by
      content type. */
  type TemplatesBag = seq<(string, map<Id, Template>)>

  datatype Page = Page(
    pageEntryId: Id,
    involvedEntryIds: set<Id>,
    publishPath: string,
    contentType: Option<string>,
    content: string)

  datatype GenError =
    | NoFields(entryId: Id)
    | SlugNotString(entryId: Id)
    | LinkNotIncluded(targetId: Id)
    | NoTemplates(contentType: Id)
    | RenderFailed(ext: string, message: string)

  /** The extensions, in order, that have a template for `contentType`. */
  function Extensions(bag: TemplatesBag, contentType: Id): (exts: seq<string>)
    ensures |exts| <= |bag|
    ensures forall ext :: ext in exts <==> exists i :: 0 <= i < |bag| && bag[i].0 == ext && contentType in bag[i].1
  {
    if |bag| == 0 then []
    else
      var rest := Extensions(bag[1..], contentType);
      assert forall i :: 0 < i < |bag| ==> bag[i] == bag[1..][i - 1];
      (if contentType in bag[0].1 then [bag[0].0] else []) + rest
  }

  /** The template of the first extension entry named `ext`. */
  function TemplateFor(bag: TemplatesBag, ext: string, contentType: Id): Option<Template> {
    if |bag| == 0 then None
    else if bag[0].0 == ext then (if contentType in bag[0].1 then Some(bag[0].1[contentType]) else None)
    else TemplateFor(bag[1..], ext, contentType)
  }

  /** The template for `ext`, if any, renders `page` without throwing. */
  predicate Renders(bag: TemplatesBag, ext: string, page: Entry) {
    var t := TemplateFor(bag, ext, page.contentType);
    t.None? || t.value(page).Success?
  }

  /** Every extension before position `k` renders. */
  predicate RendersBefore(bag: TemplatesBag, exts: seq<string>, page: Entry, k: nat)
    requires k <= |exts|
  {
    forall i :: 0 <= i < k ==> Renders(bag, exts[i], page)
  }

  /** One output per extension in `exts`, rendered in order; the first
      template that throws ends generation with its message. */
  function Render(page: Entry, involved: set<Id>, slug: string, exts: seq<string>,
                  bag: TemplatesBag, mime: string -> Option<string>): (r: Result<seq<Page>, GenError>)
    ensures r.Success? <==> forall i :: 0 <= i < |exts| ==> Renders(bag, exts[i], page)
    ensures r.Success? ==>
      && |r.value| == |exts|
      && forall i :: 0 <= i < |exts| ==>
        && r.value[i].pageEntryId == page.id
        && r.value[i].involvedEntryIds == involved
        && r.value[i].publishPath == slug + "." + exts[i]
        && r.value[i].contentType == mime(exts[i])
        && (TemplateFor(bag, exts[i], page.contentType).Some? ==>
              r.value[i].content == TemplateFor(bag, exts[i], page.contentType).value(page).value)
    ensures r.Failure? ==>
      exists k :: 0 <= k < |exts| && RendersBefore(bag, exts, page, k) && !Renders(bag, exts[k], page) &&
                  r.error == RenderFailed(exts[k], TemplateFor(bag, exts[k], page.contentType).value(page).error)
  {
    if |exts| == 0 then Success([])
    else
      var t := TemplateFor(bag, exts[0], page.contentType);
      var content := if t.Some? then t.value(page) else Success("");
      if content.Failure? then Failure(RenderFailed(exts[0], content.error))
      else
        var rest := Render(page, involved, slug, exts[1..], bag, mime);
        assert forall i :: 0 < i < |exts| ==> exts[i] == exts[1..][i - 1];
        if rest.Failure? then
          assert exists k :: 0 < k < |exts| && RendersBefore(bag, exts, page, k) && !Renders(bag, exts[k], page) &&
                             rest.error == RenderFailed(exts[k], TemplateFor(bag, exts[k], page.contentType).value(page).error) by {
            var k :| 0 <= k < |exts| - 1 && RendersBefore(bag, exts[1..], page, k) && !Renders(bag, exts[1..][k], page) &&
                     rest.error == RenderFailed(exts[1..][k], TemplateFor(bag, exts[1..][k], page.contentType).value(page).error);
            RendersBeforeShift(bag, exts, page, k);
          }
          Failure(rest.error)
        else
          Success([Page(page.id, involved, slug + "." + exts[0], mime(exts[0]), content.value)] + rest.value)
  }

  lemma RendersBeforeShift(bag: TemplatesBag, exts: seq<string>, page: Entry, k: nat)
    requires k < |exts| - 1 && Renders(bag, exts[0], page) && RendersBefore(bag, exts[1..], page, k)
    ensures RendersBefore(bag, exts, page, k + 1) && exts[k + 1] == exts[1..][k]
  {
    forall i | 1 <= i < k + 1 ensures Renders(bag, exts[i], page) {
      assert exts[i] == exts[1..][i - 1];
    }
  }

  /** The slug of a page entry when it is a string. */
  function SlugOf(page: Entry, slugField: string): Option<string> {
    if page.fields.None? then None
    else
      var v := Get(page.fields.value, slugField);
      if v.Some? && v.value.Str? then Some(v.value.s) else None
  }

  /** `generatePages`: a string slug is required first; the involved entries
      are the link closure without the page itself; one page per extension
      with a template for the page's type, published at `slug.ext`; no such
      extension is an error, and so is a template that throws. */
  function GeneratePages(page: Entry, linked: LinkedEntries, slugField: string,
                         bag: TemplatesBag, mime: string -> Option<string>): (r: Result<seq<Page>, GenError>)
    ensures page.fields.None? ==> r == Failure(NoFields(page.id))
    ensures page.fields.Some? && SlugOf(page, slugField).None? ==> r == Failure(SlugNotString(page.id))
    ensures r.Success? <==>
      && SlugOf(page, slugField).Some?
      && CollectLinkedEntries(linked, page).Success?
      && |Extensions(bag, page.contentType)| > 0
      && forall ext :: ext in Extensions(bag, page.contentType) ==> Renders(bag, ext, page)
    ensures r.Failure? && r.error.RenderFailed? ==>
      && r.error.ext in Extensions(bag, page.contentType)
      && !Renders(bag, r.error.ext, page)
      && r.error.message == TemplateFor(bag, r.error.ext, page.contentType).value(page).error
    ensures r.Success? ==>
      var exts := Extensions(bag, page.contentType);
      && |r.value| == |exts|
      && forall i :: 0 <= i < |r.value| ==>
        && r.value[i].pageEntryId == page.id
        && page.id !in r.value[i].involvedEntryIds
        && r.value[i].involvedEntryIds == CollectLinkedEntries(linked, page).value - {page.id}
        && r.value[i].publishPath == SlugOf(page, slugField).value + "." + exts[i]
        && r.value[i].contentType == mime(exts[i])
  {
    if page.fields.None? then Failure(NoFields(page.id))
    else if SlugOf(page, slugField).None? then Failure(SlugNotString(page.id))
    else
      match CollectLinkedEntries(linked, page)
      case Failure(t) => Failure(LinkNotIncluded(t))
      case Success(ids) =>
        var exts := Extensions(bag, page.contentType);
        if |exts| == 0 then Failure(NoTemplates(page.contentType))
        else Render(page, ids - {page.id}, SlugOf(page, slugField).value, exts, bag, mime)
  }

  /** The first item whose generation fails, or the number of items. */
  function FirstFailure(items: seq<Entry>, gen: Entry -> Result<seq<Page>, GenError>): (k: nat)
    ensures k <= |items|
    ensures forall i :: 0 <= i < k ==> gen(items[i]).Success?
    ensures k < |items| ==> gen(items[k]).Failure?
  {
    if |items| == 0 then 0
    else if gen(items[0]).Failure? then 0
    else 1 + FirstFailure(items[1..], gen)
  }

  /** The pages `fetchContentAndGeneratePages` hands to the publisher, item by
      item (`gen` is `generatePages` with the response's tables), and the
      error that interrupted generation if one did: pages of items before the
      failing one have already been handed over. */
  function GenerateAll(items: seq<Entry>, gen: Entry -> Result<seq<Page>, GenError>): (r: (seq<Page>, Option<GenError>))
    ensures r.1.None? <==> FirstFailure(items, gen) == |items|
    ensures r.1.Some? ==> gen(items[FirstFailure(items, gen)]) == Failure(r.1.value)
  {
    if |items| == 0 then ([], None)
    else
      match gen(items[0])
      case Failure(e) => ([], Some(e))
      case Success(ps) =>
        var rest := GenerateAll(items[1..], gen);
        (ps + rest.0, rest.1)
  }

  /** The pages handed over are exactly those of the items before the first
      failing one (all items when none fails). */
  lemma {:induction false} GenerateAllPages(items: seq<Entry>, gen: Entry -> Result<seq<Page>, GenError>, p: Page)
    ensures p in GenerateAll(items, gen).0 <==>
      exists i :: 0 <= i < FirstFailure(items, gen) && p in gen(items[i]).value
  {
    var k := FirstFailure(items, gen);
    if |items| > 0 && gen(items[0]).Success? {
      var ps := gen(items[0]).value;
      GenerateAllPages(items[1..], gen, p);
      assert k == 1 + FirstFailure(items[1..], gen);
      assert forall i :: 0 < i < |items| ==> items[i] == items[1..][i - 1];
      if p in GenerateAll(items, gen).0 && p !in ps {
        var i :| 0 <= i < k - 1 && p in gen(items[1..][i]).value;
        assert p in gen(items[i + 1]).value;
      }
    }
  }

  // ------------------------------------------------------- template helpers

  /** The `module` helper: a falsy argument renders nothing; anything else
      but an Entry-link is an invalid template; a link to an entry that is
      not included renders nothing; an included entry needs a template for
      its type under the current extension, and an error that template
      throws propagates. */
  function ModuleHelper(link: Option<Value>, linked: LinkedEntries, templates: map<Id, Template>):
    (r: Result<Option<string>, string>)
    ensures link.None? || !Truthy(link.value) ==> r == Success(None)
    ensures link.Some? && Truthy(link.value) && EntryLinkOf(link.value) == [] ==> r.Failure?
    ensures link.Some? && link.value.Link? && link.value.linkType == "Entry" ==>
      var t := link.value.target;
      && (t !in linked ==> r == Success(None))
      && (t in linked ==> (r.Success? <==> linked[t].contentType in templates &&
                                           templates[linked[t].contentType](linked[t]).Success?))
      && (t in linked && r.Success? ==> r.value == Some(templates[linked[t].contentType](linked[t]).value))
      && (t in linked && linked[t].contentType in templates && templates[linked[t].contentType](linked[t]).Failure? ==>
            r == Failure(templates[linked[t].contentType](linked[t]).error))
  {
    if link.None? || !Truthy(link.value) then Success(None)
    else if EntryLinkOf(link.value) == [] then Failure("helper \"module\" was passed invalid Entry link object")
    else
      var t := link.value.target;
      if t !in linked then Success(None)
      else if linked[t].contentType !in templates then Failure("no template found for module type " + linked[t].contentType)
      else
        var out :- templates[linked[t].contentType](linked[t]);
        Success(Some(out))
  }

  /** The `assetSrc` helper: only an Asset-link to an included asset is
      accepted; direct mode gives the asset URL, otherwise the assets path
      followed by the URL's last path segment, slash included. */
  function AssetSrc(link: Option<Value>, assets: LinkedAssets, directAssets: bool, assetsPath: string):
    (r: Result<string, string>)
    ensures r.Success? <==>
      link.Some? && link.value.Link? && link.value.linkType == "Asset" && link.value.target in assets
    ensures r.Success? && directAssets ==> r.value == assets[link.value.target].url
    ensures r.Success? && !directAssets ==>
      var url := assets[link.value.target].url;
      && |r.value| >= 1 + |assetsPath|
      && r.value[..1 + |assetsPath|] == "/" + assetsPath
      && (exists k :: 0 <= k <= |url| && r.value[1 + |assetsPath|..] == url[k..])
    ensures r.Success? && !directAssets ==>
      var url := assets[link.value.target].url;
      && ('/' !in url ==> r.value == "/" + assetsPath + url)
      && ('/' in url ==> exists k :: SlashTailAt(url, k) && r.value == "/" + assetsPath + url[k..])
  {
    if !(link.Some? && link.value.Link? && link.value.linkType == "Asset") then
      Failure("helper \"assetSrc\" was passed invalid Asset link object")
    else if link.value.target !in assets then
      Failure("linked asset id " + link.value.target + " is not included in the content")
    else
      var url := assets[link.value.target].url;
      if directAssets then Success(url)
      else
        var from := LastIndexOf(url, '/');
        var tail := SubstringFrom(url, from);
        assert tail == url[if from < 0 then 0 else from..];
        assert from >= 0 ==> SlashTailAt(url, from);
        assert from < 0 ==> tail == url;
        Success("/" + assetsPath + tail)
  }

  /** `url[k..]` begins at the last slash of `url`. */
  predicate SlashTailAt(url: string, k: int) {
    0 <= k < |url| && url[k] == '/' && forall j :: k < j < |url| ==> url[j] != '/'
  }

  /** The `src` the Markdown image renderer writes for `href`: the href
      itself in direct mode, otherwise the assets path and the text after the
      last slash. */
  function ImageSrc(href: string, directAssets: bool, assetsPath: string): (src: string)
    ensures directAssets ==> src == href
    ensures !directAssets ==>
      && |src| >= |assetsPath| + 2
      && src[..|assetsPath| + 2] == "/" + assetsPath + "/"
      && var name := src[|assetsPath| + 2..];
      && '/' !in name
      && |name| <= |href| && href[|href| - |name|..] == name
      && (|name| < |href| ==> href[|href| - |name| - 1] == '/')
  {
    if directAssets then href
    else
      var name := SubstringFrom(href, LastIndexOf(href, '/') + 1);
      "/" + assetsPath + "/" + name
  }

  /** The `markdown` helper: falsy content renders nothing. */
  function MarkdownHelper(content: Option<Value>, marked: Value -> string): (r: Option<string>)
    ensures r.Some? <==> content.Some? && Truthy(content.value)
  {
    if content.Some? && Truthy(content.value) then Some(marked(content.value)) else None
  }

  /** An asset referenced from a template and the same file referenced from
      Markdown resolve to the same address whenever its URL has a slash. */
  lemma AssetSrcMatchesImage(link: Value, assets: LinkedAssets, directAssets: bool, assetsPath: string)
    requires link.Link? && link.linkType == "Asset" && link.target in assets
    requires '/' in assets[link.target].url
    ensures AssetSrc(Some(link), assets, directAssets, assetsPath) ==
            Success(ImageSrc(assets[link.target].url, directAssets, assetsPath))
  {
    var url := assets[link.target].url;
    if !directAssets {
      var k := LastIndexOf(url, '/');
      var i :| 0 <= i < |url| && url[i] == '/';
      assert k >= 0;
      assert SubstringFrom(url, k) == url[k..];
      assert SubstringFrom(url, k + 1) == url[k + 1..];
      SlashTail(url, k, assetsPath);
    }
  }

  lemma SlashTail(url: string, k: int, prefix: string)
    requires 0 <= k < |url| && url[k] == '/'
    ensures "/" + prefix + url[k..] == "/" + prefix + "/" + url[k + 1..]
  {
    assert url[k..] == "/" + url[k + 1..];
  }

  /** Without a slash in the URL the two disagree: the template helper glues
      the whole URL to the assets path with no separator, the Markdown
      renderer puts one in. */
  lemma AssetSrcWithoutSlash(link: Value, assets: LinkedAssets, assetsPath: string)
    requires link.Link? && link.linkType == "Asset" && link.target in assets
    requires '/' !in assets[link.target].url
    ensures AssetSrc(Some(link), assets, false, assetsPath) == Success("/" + assetsPath + assets[link.target].url)
    ensures ImageSrc(assets[link.target].url, false, assetsPath) == "/" + assetsPath + "/" + assets[link.target].url
  {
    var url := assets[link.target].url;
    assert LastIndexOf(url, '/') == -1;
    assert SubstringFrom(url, 0) == url;
  }
}
