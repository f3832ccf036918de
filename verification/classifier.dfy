/** The legacy event classifier of `index.js`: the four content-event handlers
    that mutate a per-site context (reference graph, page and asset registries,
    dirty flag and four accumulators), and the reference-chain propagation
    that walks referrer lists up to the pages that embed a changed entry. */
module Classifier {
  import opened Wrappers
  import opened Seqs
  import opened Json

  type Id = string

  /** A localized field: locale code to value. */
  type LocaleMap = seq<(string, Value)>

  /** An entry or asset as carried by a content-management event: its id,
      the content type (absent for assets and deletions) and its localized
      fields (absent for deletions). */
  datatype Payload = Payload(id: Id, contentType: Option<Id>, fields: Option<seq<(string, LocaleMap)>>)

  datatype SiteConfig = SiteConfig(
    pageContentTypes: seq<string>,
    pageSlugFieldName: string,
    assetsFolder: string,
    maxDepth: int,
    contentMetaS3Key: string)

  /** The persisted per-site reference graph. `topEntries` holds the slug of
      every published page, `assets` the file name of every published asset;
      both hold whatever JSON value the payload carried. */
  datatype ContentMeta = ContentMeta(
    refsMap: map<Id, seq<Id>>,
    topEntries: map<Id, Value>,
    assets: map<Id, Value>)

  /** The per-site event context of one batch. */
  datatype Ctx = Ctx(
    site: string,
    config: SiteConfig,
    meta: ContentMeta,
    dirty: bool,
    regen: seq<Id>,
    slugsToRemove: seq<Value>,
    assetsToPublish: seq<Payload>,
    fileNamesToRemove: seq<Value>)

  // ---------------------------------------------------------------------
  // Strict-equality list operations on JSON values
  // ---------------------------------------------------------------------

  /** `splice(indexOf(v), 1)` on a list of JSON values: `indexOf` compares
      with `===`, so only a primitive value can be found. */
  function RemoveFirstStrict(xs: seq<Value>, v: Value): (r: seq<Value>)
    ensures multiset(r) <= multiset(xs)
    ensures !Primitive(v) || v !in xs ==> r == xs
    ensures Primitive(v) && v in xs ==> multiset(r)[v] == multiset(xs)[v] - 1
    ensures Primitive(v) && StrictDistinct(xs) ==> v !in r
    ensures StrictDistinct(xs) ==> StrictDistinct(r)
  {
    if Primitive(v) then
      var r := RemoveFirst(xs, v);
      StrictDistinctRemove(xs, v);
      r
    else xs
  }

  /** No two entries are `===`-equal. */
  ghost predicate StrictDistinct(xs: seq<Value>) {
    forall i, j :: 0 <= i < j < |xs| ==> !StrictEq(xs[i], xs[j])
  }

  lemma StrictDistinctRemove(xs: seq<Value>, v: Value)
    requires Primitive(v)
    ensures StrictDistinct(xs) ==> StrictDistinct(RemoveFirst(xs, v)) && v !in RemoveFirst(xs, v)
  {
    var i := IndexOf(xs, v);
    if i >= 0 && StrictDistinct(xs) {
      var r := xs[..i] + xs[i + 1..];
      assert RemoveFirst(xs, v) == r;
      forall a, b | 0 <= a < b < |r| ensures !StrictEq(r[a], r[b]) {
        var a' := if a < i then a else a + 1;
        var b' := if b < i then b else b + 1;
        assert r[a] == xs[a'] && r[b] == xs[b'];
      }
    }
  }

  /** `if (xs.indexOf(v) < 0) xs.push(v)` with `===`. */
  function AppendIfAbsentStrict(xs: seq<Value>, v: Value): (r: seq<Value>)
    ensures v in r
    ensures Primitive(v) && v in xs ==> r == xs
    ensures !(Primitive(v) && v in xs) ==> r == xs + [v]
    ensures StrictDistinct(xs) ==> StrictDistinct(r)
  {
    if Primitive(v) && v in xs then xs else xs + [v]
  }

  // ---------------------------------------------------------------------
  // Entry publish: page registry
  // ---------------------------------------------------------------------

  /** The value of the first locale of a localized field, `undefined` when it
      has no locale. */
  function FirstLocale(field: LocaleMap): Option<Value> {
    if |field| == 0 then None else Some(field[0].1)
  }

  /** The page's new slug: the first-locale value of the slug field. Reading
      the locales of a missing slug field throws. */
  function NewSlug(entry: Payload, slugField: string): (r: Result<Option<Value>, TypeError>)
    ensures r.Failure? <==> entry.fields.None? || Get(entry.fields.value, slugField).None?
    ensures r.Success? ==> r.value == FirstLocale(Get(entry.fields.value, slugField).value)
  {
    if entry.fields.None? then Failure(TypeError("fields of undefined"))
    else match Get(entry.fields.value, slugField)
      case None => Failure(TypeError("Object.keys of undefined slug field"))
      case Some(loc) => Success(FirstLocale(loc))
  }

  /** The slug currently recorded for `id`, `undefined` when there is none. */
  function OldSlug(top: map<Id, Value>, id: Id): Option<Value> {
    if id in top then Some(top[id]) else None
  }

  /** Records the new slug of a page. Storing `undefined` is modelled as
      removing the key: every reader treats both alike. The second component
      says whether the registry changed, i.e. whether the new slug differs
      (`!==`) from the old one. */
  function SetTopEntry(top: map<Id, Value>, id: Id, newSlug: Option<Value>): (r: (map<Id, Value>, bool))
    ensures r.1 <==> !StrictEqOpt(newSlug, OldSlug(top, id))
    ensures newSlug.Some? ==> id in r.0 && r.0[id] == newSlug.value
    ensures newSlug.None? ==> id !in r.0
    ensures forall k :: k != id ==> (k in r.0 <==> k in top)
    ensures forall k :: k != id && k in top ==> r.0[k] == top[k]
  {
    if StrictEqOpt(newSlug, OldSlug(top, id)) then (top, false)
    else if newSlug.Some? then (top[id := newSlug.value], true)
    else (top - {id}, true)
  }

  // ---------------------------------------------------------------------
  // Entry publish: reverse links
  // ---------------------------------------------------------------------

  /** Every Entry-link in every field and every locale, in scan order. */
  function LinkTargets(fields: seq<(string, LocaleMap)>): (ts: seq<Id>)
    ensures forall t :: t in ts <==>
      exists i, j :: 0 <= i < |fields| && 0 <= j < |fields[i].1| && t in FieldEntryLinks(fields[i].1[j].1)
  {
    if |fields| == 0 then []
    else
      var rest := LinkTargets(fields[1..]);
      var here := LocaleLinks(fields[0].1);
      assert forall t :: t in rest <==>
        exists i, j :: 1 <= i < |fields| && 0 <= j < |fields[i].1| && t in FieldEntryLinks(fields[i].1[j].1) by {
        forall t ensures t in rest <==>
          exists i, j :: 1 <= i < |fields| && 0 <= j < |fields[i].1| && t in FieldEntryLinks(fields[i].1[j].1) {
          if t in rest {
            var i, j :| 0 <= i < |fields[1..]| && 0 <= j < |fields[1..][i].1| && t in FieldEntryLinks(fields[1..][i].1[j].1);
            assert fields[1..][i] == fields[i + 1];
          }
          if exists i, j :: 1 <= i < |fields| && 0 <= j < |fields[i].1| && t in FieldEntryLinks(fields[i].1[j].1) {
            var i, j :| 1 <= i < |fields| && 0 <= j < |fields[i].1| && t in FieldEntryLinks(fields[i].1[j].1);
            assert fields[1..][i - 1] == fields[i];
          }
        }
      }
      here + rest
  }

  /** The Entry-links of one localized field, over all its locales. */
  function LocaleLinks(field: LocaleMap): (ts: seq<Id>)
    ensures forall t :: t in ts <==> exists j :: 0 <= j < |field| && t in FieldEntryLinks(field[j].1)
  {
    if |field| == 0 then []
    else
      var rest := LocaleLinks(field[1..]);
      assert forall t :: t in rest <==> exists j :: 1 <= j < |field| && t in FieldEntryLinks(field[j].1) by {
        forall t ensures t in rest <==> exists j :: 1 <= j < |field| && t in FieldEntryLinks(field[j].1) {
          if t in rest {
            var j :| 0 <= j < |field[1..]| && t in FieldEntryLinks(field[1..][j].1);
            assert field[1..][j] == field[j + 1];
          }
          if exists j :: 1 <= j < |field| && t in FieldEntryLinks(field[j].1) {
            var j :| 1 <= j < |field| && t in FieldEntryLinks(field[j].1);
            assert field[1..][j - 1] == field[j];
          }
        }
      }
      FieldEntryLinks(field[0].1) + rest
  }

  /** The referrers recorded for `t`, `[]` when none. */
  function Referrers(refs: map<Id, seq<Id>>, t: Id): seq<Id> {
    if t in refs then refs[t] else []
  }

  /** Appends `id` to the referrer list of every target that does not list it
      yet (creating missing lists). The flag says whether anything was
      appended. */
  function AddReferrer(refs: map<Id, seq<Id>>, id: Id, targets: seq<Id>): (r: (map<Id, seq<Id>>, bool))
    ensures forall k :: k in r.0 <==> k in refs || k in targets
    ensures forall k :: k in r.0 ==>
      r.0[k] == if k in targets && id !in Referrers(refs, k) then Referrers(refs, k) + [id] else refs[k]
    ensures r.1 <==> exists t :: t in targets && id !in Referrers(refs, t)
    decreases |targets|
  {
    if |targets| == 0 then (refs, false)
    else
      var t := targets[0];
      var referrers := Referrers(refs, t);
      assert forall x :: x in targets <==> x == t || x in targets[1..];
      if id in referrers then AddReferrer(refs, id, targets[1..])
      else
        var r := AddReferrer(refs[t := referrers + [id]], id, targets[1..]);
        AppendedFirst(refs, id, targets, r.0);
        (r.0, true)
  }

  /** The step of `AddReferrer` that appends `id` to the first target's list:
      what the rest of the walk does to the updated map is what the whole
      walk does to the original. */
  lemma AppendedFirst(refs: map<Id, seq<Id>>, id: Id, targets: seq<Id>, m: map<Id, seq<Id>>)
    requires |targets| > 0 && id !in Referrers(refs, targets[0])
    requires var refs1 := refs[targets[0] := Referrers(refs, targets[0]) + [id]];
      && (forall k :: k in m <==> k in refs1 || k in targets[1..])
      && (forall k :: k in m ==>
            m[k] == if k in targets[1..] && id !in Referrers(refs1, k) then Referrers(refs1, k) + [id] else refs1[k])
    ensures forall k :: k in m <==> k in refs || k in targets
    ensures forall k :: k in m ==>
      m[k] == if k in targets && id !in Referrers(refs, k) then Referrers(refs, k) + [id] else refs[k]
  {
    var t := targets[0];
    var refs1 := refs[t := Referrers(refs, t) + [id]];
    assert forall x :: x in targets <==> x == t || x in targets[1..];
    forall k | k in m
      ensures m[k] == if k in targets && id !in Referrers(refs, k) then Referrers(refs, k) + [id] else refs[k]
    {
      if k == t {
        assert id in Referrers(refs1, t);
      } else {
        assert Referrers(refs1, k) == Referrers(refs, k);
      }
    }
  }

  // ---------------------------------------------------------------------
  // Reference-chain propagation
  // ---------------------------------------------------------------------

  /** The two accumulators propagation touches. */
  datatype Acc = Acc(regen: seq<Id>, remove: seq<Value>)

  /** Every id the reference graph mentions, as key or as referrer. */
  function Universe(refs: map<Id, seq<Id>>): set<Id> {
    refs.Keys + set k, r | k in refs && r in refs[k] :: r
  }

  /** `after` extends `before` with pages only: ids without a referrer list
      whose registered slug is truthy. */
  ghost predicate RegenExtends(refs: map<Id, seq<Id>>, top: map<Id, Value>, before: seq<Id>, after: seq<Id>) {
    && |before| <= |after|
    && after[..|before|] == before
    && forall i :: |before| <= i < |after| ==> after[i] !in refs && after[i] in top && Truthy(top[after[i]])
  }

  lemma RegenExtendsTrans(refs: map<Id, seq<Id>>, top: map<Id, Value>, a: seq<Id>, b: seq<Id>, c: seq<Id>)
    requires RegenExtends(refs, top, a, b) && RegenExtends(refs, top, b, c)
    ensures RegenExtends(refs, top, a, c)
  {
    assert c[..|a|] == c[..|b|][..|a|];
  }

  /** A terminal id of the walk: when it is a page with a truthy slug it is
      queued for regeneration (once) and its slug is taken off the remove
      list. */
  function Terminal(top: map<Id, Value>, id: Id, acc: Acc): Acc {
    if id in top && Truthy(top[id]) then
      Acc(AppendIfAbsent(acc.regen, id), RemoveFirstStrict(acc.remove, top[id]))
    else acc
  }

  /** `processRefsChain(id)`, made total: `path` holds the ids on the current
      referrer chain, and a referrer already on it is not followed again. On
      an acyclic graph the guard never fires (see `ChainMatchesSourceWhenRanked`),
      so every referrer path is walked, as in the source. */
  function Chain(refs: map<Id, seq<Id>>, top: map<Id, Value>, id: Id, path: set<Id>, acc: Acc): (r: Acc)
    requires id !in path
    ensures RegenExtends(refs, top, acc.regen, r.regen)
    ensures NoDup(acc.regen) ==> NoDup(r.regen)
    ensures multiset(r.remove) <= multiset(acc.remove)
    ensures StrictDistinct(acc.remove) ==> StrictDistinct(r.remove)
    decreases |Universe(refs) - path|, 0
  {
    if id in refs then
      PathGrows(refs, id, path);
      ChainList(refs, top, refs[id], path + {id}, acc)
    else
      TerminalExtends(refs, top, id, acc);
      Terminal(top, id, acc)
  }

  /** Entering `id` shrinks the set of ids not yet on the chain. */
  lemma PathGrows(refs: map<Id, seq<Id>>, id: Id, path: set<Id>)
    requires id in refs && id !in path
    ensures |Universe(refs) - (path + {id})| < |Universe(refs) - path|
  {
    var rest := Universe(refs) - path;
    assert id in rest;
    assert Universe(refs) - (path + {id}) == rest - {id};
  }

  /** A terminal id queues at most itself, a page, and removes at most one
      slug. */
  lemma TerminalExtends(refs: map<Id, seq<Id>>, top: map<Id, Value>, id: Id, acc: Acc)
    requires id !in refs
    ensures RegenExtends(refs, top, acc.regen, Terminal(top, id, acc).regen)
    ensures NoDup(acc.regen) ==> NoDup(Terminal(top, id, acc).regen)
    ensures multiset(Terminal(top, id, acc).remove) <= multiset(acc.remove)
    ensures StrictDistinct(acc.remove) ==> StrictDistinct(Terminal(top, id, acc).remove)
  {
    var r := Terminal(top, id, acc);
    assert r.regen[..|acc.regen|] == acc.regen;
  }

  /** `referrers.forEach(processRefsChain)` under the chain guard. */
  function ChainList(refs: map<Id, seq<Id>>, top: map<Id, Value>, ids: seq<Id>, path: set<Id>, acc: Acc): (r: Acc)
    ensures RegenExtends(refs, top, acc.regen, r.regen)
    ensures NoDup(acc.regen) ==> NoDup(r.regen)
    ensures multiset(r.remove) <= multiset(acc.remove)
    ensures StrictDistinct(acc.remove) ==> StrictDistinct(r.remove)
    decreases |Universe(refs) - path|, 1, |ids|
  {
    if |ids| == 0 then acc
    else
      var acc1 := if ids[0] in path then acc else Chain(refs, top, ids[0], path, acc);
      var r := ChainList(refs, top, ids[1..], path, acc1);
      RegenExtendsTrans(refs, top, acc.regen, acc1.regen, r.regen);
      r
  }

  // ---------------------------------------------------------------------
  // The source's unguarded walk, and when the two agree
  // ---------------------------------------------------------------------

  /** The source's recursion verbatim, with a fuel bound standing for
      "the recursion has not diverged yet": `None` means out of fuel. */
  function ChainAsWritten(refs: map<Id, seq<Id>>, top: map<Id, Value>, id: Id, fuel: nat, acc: Acc): Option<Acc>
    decreases fuel, 0
  {
    if fuel == 0 then None
    else if id in refs then ChainListAsWritten(refs, top, refs[id], fuel - 1, acc)
    else Some(Terminal(top, id, acc))
  }

  function ChainListAsWritten(refs: map<Id, seq<Id>>, top: map<Id, Value>, ids: seq<Id>, fuel: nat, acc: Acc): Option<Acc>
    decreases fuel, 1, |ids|
  {
    if |ids| == 0 then Some(acc)
    else match ChainAsWritten(refs, top, ids[0], fuel, acc)
      case None => None
      case Some(acc1) => ChainListAsWritten(refs, top, ids[1..], fuel, acc1)
  }

  /** Acyclicity of the referrer graph, witnessed by a rank that strictly
      decreases from every id to each of its referrers. */
  ghost predicate Ranked(refs: map<Id, seq<Id>>, rank: map<Id, nat>) {
    forall k, r :: k in refs && r in refs[k] ==> k in rank && r in rank && rank[r] < rank[k]
  }

  lemma {:induction false} ChainAgrees(refs: map<Id, seq<Id>>, top: map<Id, Value>, rank: map<Id, nat>,
                                      id: Id, path: set<Id>, fuel: nat, acc: Acc)
    requires Ranked(refs, rank)
    requires id in rank && fuel > rank[id]
    requires forall p :: p in path ==> p in rank && rank[p] > rank[id]
    ensures id !in path
    ensures ChainAsWritten(refs, top, id, fuel, acc) == Some(Chain(refs, top, id, path, acc))
    decreases fuel, 0
  {
    if id in refs {
      ChainListAgrees(refs, top, rank, refs[id], path + {id}, fuel - 1, rank[id], acc);
    }
  }

  lemma {:induction false} ChainListAgrees(refs: map<Id, seq<Id>>, top: map<Id, Value>, rank: map<Id, nat>,
                                          ids: seq<Id>, path: set<Id>, fuel: nat, bound: nat, acc: Acc)
    requires Ranked(refs, rank)
    requires forall r :: r in ids ==> r in rank && rank[r] < bound
    requires bound <= fuel
    requires forall p :: p in path ==> p in rank && rank[p] >= bound
    ensures ChainListAsWritten(refs, top, ids, fuel, acc) == Some(ChainList(refs, top, ids, path, acc))
    decreases fuel, 1, |ids|
  {
    if |ids| > 0 {
      ChainAgrees(refs, top, rank, ids[0], path, fuel, acc);
      ChainListAgrees(refs, top, rank, ids[1..], path, fuel, bound, Chain(refs, top, ids[0], path, acc));
    }
  }

  /** On an acyclic graph the total walk computes exactly what the source's
      recursion computes. */
  lemma ChainMatchesSourceWhenRanked(refs: map<Id, seq<Id>>, top: map<Id, Value>, rank: map<Id, nat>,
                                     id: Id, acc: Acc)
    requires Ranked(refs, rank)
    requires id in rank
    ensures ChainAsWritten(refs, top, id, rank[id] + 1, acc) == Some(Chain(refs, top, id, {}, acc))
  {
    ChainAgrees(refs, top, rank, id, {}, rank[id] + 1, acc);
  }

  /** An entry that links to itself is its own referrer: the source's
      recursion never returns from it, while the guarded walk stops at once. */
  lemma SelfReferrerDiverges(refs: map<Id, seq<Id>>, top: map<Id, Value>, t: Id, fuel: nat, acc: Acc)
    requires t in refs && refs[t] == [t]
    ensures ChainAsWritten(refs, top, t, fuel, acc).None?
    ensures Chain(refs, top, t, {}, acc) == acc
  {
    SelfReferrerRecursion(refs, top, t, fuel, acc);
    var path: set<Id> := {};
    assert path + {t} == {t};
    assert Chain(refs, top, t, path, acc) == ChainList(refs, top, [t], {t}, acc);
    assert [t][1..] == [];
    assert ChainList(refs, top, [t], {t}, acc) == ChainList(refs, top, [], {t}, acc);
  }

  lemma {:induction false} SelfReferrerRecursion(refs: map<Id, seq<Id>>, top: map<Id, Value>, t: Id, fuel: nat, acc: Acc)
    requires t in refs && refs[t] == [t]
    ensures ChainAsWritten(refs, top, t, fuel, acc).None?
  {
    if fuel > 0 {
      SelfReferrerRecursion(refs, top, t, fuel - 1, acc);
    }
  }

  /** A referrer chain `xs[0] <- xs[1] <- ... <- page`: each id is referred to
      by the next, and the chain ends at a page with a truthy slug. */
  ghost predicate RefChainToPage(refs: map<Id, seq<Id>>, top: map<Id, Value>, xs: seq<Id>) {
    && |xs| >= 1
    && NoDup(xs)
    && (forall i :: 0 <= i < |xs| - 1 ==> xs[i] in refs && xs[i + 1] in refs[xs[i]])
    && xs[|xs| - 1] !in refs
    && xs[|xs| - 1] in top
    && Truthy(top[xs[|xs| - 1]])
  }

  /** What reaching the page at the end of a chain guarantees. */
  ghost predicate PageReached(top: map<Id, Value>, page: Id, acc: Acc, r: Acc)
    requires page in top
  {
    && page in r.regen
    && (Primitive(top[page]) && top[page] in acc.remove ==>
          multiset(r.remove)[top[page]] < multiset(acc.remove)[top[page]])
  }

  /** Completeness of propagation: every page at the end of a referrer chain
      that starts at `xs[0]` and avoids the current path is queued for
      regeneration, and one occurrence of its slug leaves the remove list. */
  lemma {:induction false} ChainReaches(refs: map<Id, seq<Id>>, top: map<Id, Value>, xs: seq<Id>,
                                       path: set<Id>, acc: Acc)
    requires RefChainToPage(refs, top, xs)
    requires forall i :: 0 <= i < |xs| ==> xs[i] !in path
    ensures PageReached(top, xs[|xs| - 1], acc, Chain(refs, top, xs[0], path, acc))
    decreases |xs|, 0
  {
    var page := xs[|xs| - 1];
    if |xs| == 1 {
      assert xs[0] == page;
    } else {
      var rest := xs[1..];
      assert rest[|rest| - 1] == page;
      assert RefChainToPage(refs, top, rest) by {
        forall i | 0 <= i < |rest| - 1 ensures rest[i] in refs && rest[i + 1] in refs[rest[i]] {
          assert rest[i] == xs[i + 1] && rest[i + 1] == xs[i + 2];
        }
      }
      forall i | 0 <= i < |rest| ensures rest[i] !in path + {xs[0]} {
        assert rest[i] == xs[i + 1];
      }
      ChainListReaches(refs, top, refs[xs[0]], rest, path + {xs[0]}, acc);
    }
  }

  lemma {:induction false} ChainListReaches(refs: map<Id, seq<Id>>, top: map<Id, Value>, ids: seq<Id>,
                                           xs: seq<Id>, path: set<Id>, acc: Acc)
    requires RefChainToPage(refs, top, xs)
    requires xs[0] in ids
    requires forall i :: 0 <= i < |xs| ==> xs[i] !in path
    ensures PageReached(top, xs[|xs| - 1], acc, ChainList(refs, top, ids, path, acc))
    decreases |xs|, 1, |ids|
  {
    var page := xs[|xs| - 1];
    var acc1 := if ids[0] in path then acc else Chain(refs, top, ids[0], path, acc);
    var r := ChainList(refs, top, ids[1..], path, acc1);
    assert r == ChainList(refs, top, ids, path, acc);
    if ids[0] == xs[0] {
      ChainReaches(refs, top, xs, path, acc);
      assert PageReached(top, page, acc, acc1);
      assert page in r.regen by {
        assert r.regen[..|acc1.regen|] == acc1.regen;
      }
    } else {
      assert xs[0] in ids[1..];
      ChainListReaches(refs, top, ids[1..], xs, path, acc1);
      assert page in r.regen;
    }
  }

  // ---------------------------------------------------------------------
  // The four handlers
  // ---------------------------------------------------------------------

  predicate IsPageType(config: SiteConfig, contentType: Id) {
    contentType in config.pageContentTypes
  }

  /** `processPublishEntry`: records the page slug, the reverse links of the
      entry, and queues the pages that embed the entry. */
  function PublishEntry(ctx: Ctx, entry: Payload): (r: Result<Ctx, TypeError>)
    ensures r.Failure? <==>
      || entry.contentType.None?
      || entry.fields.None?
      || (IsPageType(ctx.config, entry.contentType.value) &&
          Get(entry.fields.value, ctx.config.pageSlugFieldName).None?)
    ensures r.Success? ==>
      var c := r.value;
      && c.site == ctx.site && c.config == ctx.config
      && c.meta.assets == ctx.meta.assets
      && c.assetsToPublish == ctx.assetsToPublish
      && c.fileNamesToRemove == ctx.fileNamesToRemove
    // the page registry
    ensures r.Success? && !IsPageType(ctx.config, entry.contentType.value) ==>
      r.value.meta.topEntries == ctx.meta.topEntries
    ensures r.Success? && IsPageType(ctx.config, entry.contentType.value) ==>
      var slug := FirstLocale(Get(entry.fields.value, ctx.config.pageSlugFieldName).value);
      && (slug.Some? ==> entry.id in r.value.meta.topEntries && r.value.meta.topEntries[entry.id] == slug.value)
      && (slug.None? ==> entry.id !in r.value.meta.topEntries)
    // the reverse links
    ensures r.Success? ==>
      var targets := LinkTargets(entry.fields.value);
      var refs := r.value.meta.refsMap;
      && (forall k :: k in refs <==> k in ctx.meta.refsMap || k in targets)
      && (forall k :: k in refs ==>
            refs[k] == if k in targets && !ListsReferrer(ctx.meta.refsMap, k, entry.id)
                       then Referrers(ctx.meta.refsMap, k) + [entry.id] else ctx.meta.refsMap[k])
    // the dirty flag
    ensures r.Success? ==>
      var targets := LinkTargets(entry.fields.value);
      r.value.dirty <==>
        || ctx.dirty
        || (exists t :: t in targets && !ListsReferrer(ctx.meta.refsMap, t, entry.id))
        || (IsPageType(ctx.config, entry.contentType.value) &&
            !StrictEqOpt(FirstLocale(Get(entry.fields.value, ctx.config.pageSlugFieldName).value),
                         OldSlug(ctx.meta.topEntries, entry.id)))
    // the accumulators touched by propagation
    ensures r.Success? ==>
      && RegenExtends(r.value.meta.refsMap, r.value.meta.topEntries, ctx.regen, r.value.regen)
      && (NoDup(ctx.regen) ==> NoDup(r.value.regen))
      && multiset(r.value.slugsToRemove) <= multiset(ctx.slugsToRemove)
  {
    if entry.contentType.None? then Failure(TypeError("contentType of undefined"))
    else
      var pageUpdate :-
        if IsPageType(ctx.config, entry.contentType.value) then
          var slug :- NewSlug(entry, ctx.config.pageSlugFieldName);
          Success(SetTopEntry(ctx.meta.topEntries, entry.id, slug))
        else Success((ctx.meta.topEntries, false));
      if entry.fields.None? then Failure(TypeError("Object.keys of undefined fields"))
      else
        var (top, slugChanged) := pageUpdate;
        var (refs, appended) := AddReferrer(ctx.meta.refsMap, entry.id, LinkTargets(entry.fields.value));
        var acc := Chain(refs, top, entry.id, {}, Acc(ctx.regen, ctx.slugsToRemove));
        Success(ctx.(
          meta := ctx.meta.(refsMap := refs, topEntries := top),
          dirty := ctx.dirty || slugChanged || appended,
          regen := acc.regen,
          slugsToRemove := acc.remove))
  }

  /** Publishing an entry queues every page at the end of a referrer chain
      that starts at the entry, in the tables the handler leaves behind, and
      takes one occurrence of that page's slug off the removal list. */
  lemma PublishEntryQueuesChainPages(ctx: Ctx, entry: Payload, xs: seq<Id>)
    requires PublishEntry(ctx, entry).Success?
    requires RefChainToPage(PublishEntry(ctx, entry).value.meta.refsMap,
                            PublishEntry(ctx, entry).value.meta.topEntries, xs)
    requires xs[0] == entry.id
    ensures var c := PublishEntry(ctx, entry).value;
      PageReached(c.meta.topEntries, xs[|xs| - 1], Acc(ctx.regen, ctx.slugsToRemove),
                  Acc(c.regen, c.slugsToRemove))
  {
    var c := PublishEntry(ctx, entry).value;
    var acc0 := Acc(ctx.regen, ctx.slugsToRemove);
    assert Acc(c.regen, c.slugsToRemove) == Chain(c.meta.refsMap, c.meta.topEntries, entry.id, {}, acc0);
    ChainReaches(c.meta.refsMap, c.meta.topEntries, xs, {}, acc0);
  }

  /** `id` is already among the referrers recorded for `t`. */
  predicate ListsReferrer(refs: map<Id, seq<Id>>, t: Id, id: Id) {
    id in Referrers(refs, t)
  }

  /** `processUnpublishEntry`: a registered page (truthy slug) is dropped from
      the registry, its slug queued for removal and its regeneration
      cancelled; any other entry is ignored. */
  function UnpublishEntry(ctx: Ctx, id: Id): (r: Ctx)
    ensures id !in ctx.meta.topEntries || !Truthy(ctx.meta.topEntries[id]) ==> r == ctx
    ensures id in ctx.meta.topEntries && Truthy(ctx.meta.topEntries[id]) ==>
      && r.meta.topEntries == ctx.meta.topEntries - {id}
      && r.dirty
      && r.slugsToRemove == ctx.slugsToRemove + [ctx.meta.topEntries[id]]
      && multiset(r.regen) == multiset(ctx.regen) - multiset{id}
      && (NoDup(ctx.regen) ==> id !in r.regen && NoDup(r.regen))
      && r.meta.refsMap == ctx.meta.refsMap && r.meta.assets == ctx.meta.assets
      && r.assetsToPublish == ctx.assetsToPublish && r.fileNamesToRemove == ctx.fileNamesToRemove
  {
    if id !in ctx.meta.topEntries || !Truthy(ctx.meta.topEntries[id]) then ctx
    else
      var slug := ctx.meta.topEntries[id];
      ctx.(
        meta := ctx.meta.(topEntries := ctx.meta.topEntries - {id}),
        dirty := true,
        slugsToRemove := ctx.slugsToRemove + [slug],
        regen := RemoveFirst(ctx.regen, id))
  }

  /** The asset's file name: `fields.file[firstLocale].fileName`. A missing
      file field, an empty locale map or a `null` file value throws. */
  function AssetFileName(asset: Payload): (r: Result<Option<Value>, TypeError>)
    ensures asset.fields.None? ==> r.Failure?
    ensures asset.fields.Some? && Get(asset.fields.value, "file").None? ==> r.Failure?
    ensures asset.fields.Some? && Get(asset.fields.value, "file").Some? ==>
      r == Member(FirstLocale(Get(asset.fields.value, "file").value), "fileName")
  {
    if asset.fields.None? then Failure(TypeError("fields of undefined"))
    else match Get(asset.fields.value, "file")
      case None => Failure(TypeError("Object.keys of undefined file field"))
      case Some(loc) => Member(FirstLocale(loc), "fileName")
  }

  /** Every pending asset publish has its own asset id. */
  ghost predicate UniqueIds(s: seq<Payload>) {
    forall i, j :: 0 <= i < j < |s| ==> s[i].id != s[j].id
  }

  lemma {:induction false} FilterKeepsUniqueIds(s: seq<Payload>, p: Payload -> bool)
    requires UniqueIds(s)
    ensures UniqueIds(Filter(s, p))
  {
    if |s| > 0 {
      FilterKeepsUniqueIds(s[1..], p);
      var rest := Filter(s[1..], p);
      if p(s[0]) {
        var r := [s[0]] + rest;
        assert Filter(s, p) == r;
        forall i, j | 0 <= i < j < |r| ensures r[i].id != r[j].id {
          if i == 0 {
            assert r[j] in s[1..];
            var k :| 0 <= k < |s[1..]| && s[1..][k] == r[j];
            assert s[k + 1] == r[j];
          }
        }
      }
    }
  }

  /** `processPublishAsset`: records the file name, replaces any earlier
      pending publish of the asset with this payload, and cancels a pending
      removal of the file name. */
  function PublishAsset(ctx: Ctx, asset: Payload): (r: Result<Ctx, TypeError>)
    ensures r.Failure? <==> AssetFileName(asset).Failure?
    ensures r.Success? ==>
      var name := AssetFileName(asset).value;
      var c := r.value;
      && (name.Some? ==> asset.id in c.meta.assets && c.meta.assets[asset.id] == name.value)
      && (name.None? ==> asset.id !in c.meta.assets)
      && (forall k :: k != asset.id ==> (k in c.meta.assets <==> k in ctx.meta.assets))
      && (forall k :: k != asset.id && k in ctx.meta.assets ==> c.meta.assets[k] == ctx.meta.assets[k])
      && c.dirty
      && |c.assetsToPublish| > 0 && c.assetsToPublish[|c.assetsToPublish| - 1] == asset
      && (forall i :: 0 <= i < |c.assetsToPublish| - 1 ==> c.assetsToPublish[i].id != asset.id)
      && (forall a :: a in ctx.assetsToPublish && a.id != asset.id ==> a in c.assetsToPublish)
      && (UniqueIds(ctx.assetsToPublish) ==> UniqueIds(c.assetsToPublish))
      && multiset(c.fileNamesToRemove) <= multiset(ctx.fileNamesToRemove)
      && (name.Some? && Primitive(name.value) && StrictDistinct(ctx.fileNamesToRemove) ==>
            name.value !in c.fileNamesToRemove)
      && (StrictDistinct(ctx.fileNamesToRemove) ==> StrictDistinct(c.fileNamesToRemove))
      && c.meta.refsMap == ctx.meta.refsMap && c.meta.topEntries == ctx.meta.topEntries
      && c.regen == ctx.regen && c.slugsToRemove == ctx.slugsToRemove
  {
    var name :- AssetFileName(asset);
    var kept := Filter(ctx.assetsToPublish, (a: Payload) => a.id != asset.id);
    assert UniqueIds(ctx.assetsToPublish) ==> UniqueIds(kept + [asset]) by {
      if UniqueIds(ctx.assetsToPublish) {
        FilterKeepsUniqueIds(ctx.assetsToPublish, (a: Payload) => a.id != asset.id);
      }
    }
    Success(ctx.(
      meta := ctx.meta.(assets := if name.Some? then ctx.meta.assets[asset.id := name.value]
                                  else ctx.meta.assets - {asset.id}),
      dirty := true,
      assetsToPublish := kept + [asset],
      fileNamesToRemove := if name.Some? then RemoveFirstStrict(ctx.fileNamesToRemove, name.value)
                           else ctx.fileNamesToRemove))
  }

  /** `processUnpublishAsset`: without a truthy recorded file name the event
      is ignored; otherwise the mapping is dropped, the file name queued for
      removal (once) and any pending publish of the asset cancelled. */
  function UnpublishAsset(ctx: Ctx, id: Id): (r: Ctx)
    ensures id !in ctx.meta.assets || !Truthy(ctx.meta.assets[id]) ==> r == ctx
    ensures id in ctx.meta.assets && Truthy(ctx.meta.assets[id]) ==>
      var name := ctx.meta.assets[id];
      && r.meta.assets == ctx.meta.assets - {id}
      && r.dirty
      && name in r.fileNamesToRemove
      && (Primitive(name) && name in ctx.fileNamesToRemove ==> r.fileNamesToRemove == ctx.fileNamesToRemove)
      && (!(Primitive(name) && name in ctx.fileNamesToRemove) ==> r.fileNamesToRemove == ctx.fileNamesToRemove + [name])
      && (StrictDistinct(ctx.fileNamesToRemove) ==> StrictDistinct(r.fileNamesToRemove))
      && (forall a :: a in r.assetsToPublish <==> a in ctx.assetsToPublish && a.id != id)
      && (UniqueIds(ctx.assetsToPublish) ==> UniqueIds(r.assetsToPublish))
      && r.meta.refsMap == ctx.meta.refsMap && r.meta.topEntries == ctx.meta.topEntries
      && r.regen == ctx.regen && r.slugsToRemove == ctx.slugsToRemove
  {
    if id !in ctx.meta.assets || !Truthy(ctx.meta.assets[id]) then ctx
    else
      var name := ctx.meta.assets[id];
      var kept := Filter(ctx.assetsToPublish, (a: Payload) => a.id != id);
      assert UniqueIds(ctx.assetsToPublish) ==> UniqueIds(kept) by {
        if UniqueIds(ctx.assetsToPublish) {
          FilterKeepsUniqueIds(ctx.assetsToPublish, (a: Payload) => a.id != id);
        }
      }
      ctx.(
        meta := ctx.meta.(assets := ctx.meta.assets - {id}),
        dirty := true,
        fileNamesToRemove := AppendIfAbsentStrict(ctx.fileNamesToRemove, name),
        assetsToPublish := kept)
  }
}
