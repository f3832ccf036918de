/** The `generate` command (`lib/commands/generate.js`): the ids of all page
    entries, queried content type by content type, each page required to have
    a string slug no other page uses; then page generation in batches of five
    ids, one batch after the other. Directory handling, static-content copying
    and template loading are outside the model; the content query and the
    page generator are parameters. */
module Generator {
  import opened Wrappers
  import opened Seqs
  import opened Json
  import opened Runtime
  import opened Chains

  /** Why collecting the page ids stopped. */
  datatype ScanError =
    | QueryFailed(message: string)
    | NoSlug(entryId: Id)
    | DuplicateSlug(entryId: Id, slug: string)

  /** The rejection message of the command. */
  function ScanErrorText(e: ScanError): string {
    match e
    case QueryFailed(m) => m
    case NoSlug(id) => "Page entry id " + id + " does not have a slug or its value is not a string."
    case DuplicateSlug(id, s) => "Page entry id " + id + " has slug \"" + s + "\" that is used by another page."
  }

  /** The entries of one content type, or the failure of that query. */
  type Query = Id -> Result<seq<Entry>, string>

  /** The entries of all page content types, in type order and then in the
      order each query returns them, or the first failed query: the queries
      form one promise chain, so a failed query ends it. */
  function Listed(types: seq<Id>, query: Query): Result<seq<Entry>, string> {
    if |types| == 0 then Success([])
    else
      match query(types[0])
      case Failure(m) => Failure(m)
      case Success(es) =>
        match Listed(types[1..], query)
        case Failure(m) => Failure(m)
        case Success(rest) => Success(es + rest)
  }

  /** The ids of `es`, in order. */
  function IdsOf(es: seq<Entry>): (ids: seq<Id>)
    ensures |ids| == |es|
    ensures forall i :: 0 <= i < |es| ==> ids[i] == es[i].id
  {
    seq(|es|, i requires 0 <= i < |es| => es[i].id)
  }

  /** The string slugs of `es`, in order. */
  function SlugsOf(es: seq<Entry>, f: string): (ss: seq<Option<string>>)
    ensures |ss| == |es|
    ensures forall i :: 0 <= i < |es| ==> ss[i] == SlugOf(es[i], f)
  {
    seq(|es|, i requires 0 <= i < |es| => SlugOf(es[i], f))
  }

  /** The slugs present in `ss`. */
  ghost function Present(ss: seq<Option<string>>): set<string> {
    set i | 0 <= i < |ss| && ss[i].Some? :: ss[i].value
  }

  /** Every slug is present, none of them in `seen` and no two the same. */
  ghost predicate Fresh(ss: seq<Option<string>>, seen: set<string>) {
    && (forall i :: 0 <= i < |ss| ==> ss[i].Some? && ss[i].value !in seen)
    && (forall i, j :: 0 <= i < j < |ss| ==> ss[i] != ss[j])
  }

  /** Every entry has a string slug, none of them in `seen` and no two the
      same. */
  ghost predicate Unique(es: seq<Entry>, f: string, seen: set<string>) {
    Fresh(SlugsOf(es, f), seen)
  }

  lemma FreshAppend(a: seq<Option<string>>, b: seq<Option<string>>, seen: set<string>)
    ensures Fresh(a + b, seen) <==> Fresh(a, seen) && Fresh(b, seen + Present(a))
  {
    var ab := a + b;
    assert forall i :: 0 <= i < |a| ==> ab[i] == a[i];
    assert forall j :: 0 <= j < |b| ==> ab[|a| + j] == b[j];
    if Fresh(a, seen) && Fresh(b, seen + Present(a)) {
      forall i, j | 0 <= i < j < |ab| ensures ab[i] != ab[j] {
        if i < |a| && j >= |a| {
          assert a[i].value in Present(a);
        }
      }
    }
    if Fresh(ab, seen) {
      forall j | 0 <= j < |b| ensures b[j].Some? && b[j].value !in Present(a) {
        assert ab[|a| + j].Some?;
        forall i | 0 <= i < |a| ensures a[i] != b[j] {
          assert ab[i] != ab[|a| + j];
        }
      }
      forall i, j | 0 <= i < j < |b| ensures b[i] != b[j] {
        assert ab[|a| + i] != ab[|a| + j];
      }
    }
  }

  lemma PresentAppend(a: seq<Option<string>>, b: seq<Option<string>>)
    ensures Present(a + b) == Present(a) + Present(b)
  {
    var ab := a + b;
    assert forall i :: 0 <= i < |a| ==> ab[i] == a[i];
    assert forall j :: 0 <= j < |b| ==> ab[|a| + j] == b[j];
    forall s | s in Present(ab) ensures s in Present(a) + Present(b) {
      var i :| 0 <= i < |ab| && ab[i].Some? && ab[i].value == s;
      if i >= |a| {
        assert b[i - |a|].value in Present(b);
      }
    }
  }

  /** The listing functions distribute over concatenation. */
  lemma OfAppend(a: seq<Entry>, b: seq<Entry>, f: string)
    ensures SlugsOf(a + b, f) == SlugsOf(a, f) + SlugsOf(b, f)
    ensures IdsOf(a + b) == IdsOf(a) + IdsOf(b)
  {
  }

  /** The slugs met so far and the page ids collected so far. */
  datatype Scan = Scan(seen: set<string>, ids: seq<Id>)

  /** The entries of one query, one after the other: a missing or non-string
      slug rejects, a slug met before rejects, otherwise the slug is
      remembered and the id appended. */
  function ScanItems(items: seq<Entry>, f: string, st: Scan): (r: Result<Scan, ScanError>)
    ensures r.Success? <==> Unique(items, f, st.seen)
    ensures r.Success? ==> r.value == Scan(st.seen + Present(SlugsOf(items, f)), st.ids + IdsOf(items))
    ensures r.Failure? ==> r.error.NoSlug? || r.error.DuplicateSlug?
  {
    if |items| == 0 then
      var none: seq<Id> := [];
      assert st.ids + none == st.ids;
      Success(st)
    else
      var e := items[0];
      var slug := SlugOf(e, f);
      if slug.None? then Failure(NoSlug(e.id))
      else if slug.value in st.seen then Failure(DuplicateSlug(e.id, slug.value))
      else
        var r := ScanItems(items[1..], f, Scan(st.seen + {slug.value}, st.ids + [e.id]));
        ScanResultStep(items, f, st, r);
        r
  }

  /** The scan of the remaining entries, started from the first entry's
      state, is the scan of all of them. */
  lemma ScanResultStep(items: seq<Entry>, f: string, st: Scan, r: Result<Scan, ScanError>)
    requires |items| > 0 && SlugOf(items[0], f).Some? && SlugOf(items[0], f).value !in st.seen
    requires var st1 := Scan(st.seen + {SlugOf(items[0], f).value}, st.ids + [items[0].id]);
      && (r.Success? <==> Unique(items[1..], f, st1.seen))
      && (r.Success? ==> r.value == Scan(st1.seen + Present(SlugsOf(items[1..], f)), st1.ids + IdsOf(items[1..])))
    ensures r.Success? <==> Unique(items, f, st.seen)
    ensures r.Success? ==> r.value == Scan(st.seen + Present(SlugsOf(items, f)), st.ids + IdsOf(items))
  {
    ScanStep(items, f, st.seen);
    if r.Success? {
      AppendAssoc(st.ids, [items[0].id], IdsOf(items[1..]));
    }
  }

  /** What the scan of the first entry leaves to the scan of the others. */
  lemma ScanStep(items: seq<Entry>, f: string, seen: set<string>)
    requires |items| > 0 && SlugOf(items[0], f).Some?
    ensures var s := SlugOf(items[0], f).value;
      && (Unique(items, f, seen) <==> s !in seen && Unique(items[1..], f, seen + {s}))
      && Present(SlugsOf(items, f)) == {s} + Present(SlugsOf(items[1..], f))
      && IdsOf(items) == [items[0].id] + IdsOf(items[1..])
  {
    var ss := SlugsOf(items, f);
    assert ss[1..] == SlugsOf(items[1..], f);
    FreshCons(ss, seen);
    PresentCons(ss);
    assert IdsOf(items) == [items[0].id] + IdsOf(items[1..]);
  }

  lemma FreshCons(ss: seq<Option<string>>, seen: set<string>)
    requires |ss| > 0 && ss[0].Some?
    ensures Fresh(ss, seen) <==> ss[0].value !in seen && Fresh(ss[1..], seen + {ss[0].value})
  {
    assert ss == [ss[0]] + ss[1..];
    assert Present([ss[0]]) == {ss[0].value};
    FreshAppend([ss[0]], ss[1..], seen);
  }

  lemma PresentCons(ss: seq<Option<string>>)
    requires |ss| > 0 && ss[0].Some?
    ensures Present(ss) == {ss[0].value} + Present(ss[1..])
  {
    assert ss == [ss[0]] + ss[1..];
    assert Present([ss[0]]) == {ss[0].value};
    PresentAppend([ss[0]], ss[1..]);
  }

  /** The queries, content type by content type, each followed by the scan of
      its entries; the first failure ends the chain. */
  function ScanTypes(types: seq<Id>, query: Query, f: string, st: Scan): Result<Scan, ScanError> {
    if |types| == 0 then Success(st)
    else
      match query(types[0])
      case Failure(m) => Failure(QueryFailed(m))
      case Success(items) =>
        match ScanItems(items, f, st)
        case Failure(e) => Failure(e)
        case Success(st') => ScanTypes(types[1..], query, f, st')
  }

  /** The scan of all types succeeds exactly when every query does and the
      whole listing has fresh, distinct slugs. */
  lemma {:induction false} ScanTypesSucceeds(types: seq<Id>, query: Query, f: string, st: Scan)
    ensures ScanTypes(types, query, f, st).Success? <==>
      Listed(types, query).Success? && Unique(Listed(types, query).value, f, st.seen)
  {
    if |types| > 0 && query(types[0]).Success? {
      var items := query(types[0]).value;
      var one := ScanItems(items, f, st);
      ListedStep(types, query);
      if one.Success? {
        ScanTypesSucceeds(types[1..], query, f, one.value);
      }
      if Listed(types[1..], query).Success? {
        var rest := Listed(types[1..], query).value;
        OfAppend(items, rest, f);
        FreshAppend(SlugsOf(items, f), SlugsOf(rest, f), st.seen);
      }
    }
  }

  /** A successful scan collects the ids of the whole listing, in order. */
  lemma {:induction false} ScanTypesIds(types: seq<Id>, query: Query, f: string, st: Scan)
    requires ScanTypes(types, query, f, st).Success?
    ensures Listed(types, query).Success?
    ensures ScanTypes(types, query, f, st).value.ids == st.ids + IdsOf(Listed(types, query).value)
  {
    if |types| == 0 {
      var none: seq<Id> := [];
      assert st.ids + none == st.ids;
    } else {
      var items := query(types[0]).value;
      var one := ScanItems(items, f, st);
      ScanTypesIds(types[1..], query, f, one.value);
      ListedStep(types, query);
      var rest := Listed(types[1..], query).value;
      OfAppend(items, rest, f);
      assert ScanTypes(types, query, f, st) == ScanTypes(types[1..], query, f, one.value);
      assert one.value.ids == st.ids + IdsOf(items);
      AppendAssoc(st.ids, IdsOf(items), IdsOf(rest));
    }
  }

  /** The listing is the first type's entries followed by the listing of the
      others. */
  lemma ListedStep(types: seq<Id>, query: Query)
    requires |types| > 0 && query(types[0]).Success?
    ensures Listed(types, query).Success? <==> Listed(types[1..], query).Success?
    ensures Listed(types[1..], query).Success? ==>
      Listed(types, query).value == query(types[0]).value + Listed(types[1..], query).value
  {
  }

  /** The ids of all pages, or the first reason to reject. */
  function CollectPageIds(types: seq<Id>, query: Query, f: string): (r: Result<seq<Id>, ScanError>) {
    match ScanTypes(types, query, f, Scan({}, []))
    case Success(st) => Success(st.ids)
    case Failure(e) => Failure(e)
  }

  /** The page ids are collected when every query succeeds and every listed
      page has its own string slug; they are then the ids of all listed
      entries, content type by content type and in the order of each
      query's result. */
  lemma CollectPageIdsCorrect(types: seq<Id>, query: Query, f: string)
    ensures CollectPageIds(types, query, f).Success? <==>
      Listed(types, query).Success? && Unique(Listed(types, query).value, f, {})
    ensures CollectPageIds(types, query, f).Success? ==>
      CollectPageIds(types, query, f).value == IdsOf(Listed(types, query).value)
  {
    ScanTypesSucceeds(types, query, f, Scan({}, []));
    if CollectPageIds(types, query, f).Success? {
      ScanTypesIds(types, query, f, Scan({}, []));
    }
    var none: seq<Id> := [];
    assert forall s: seq<Id> :: none + s == s;
  }

  /** A page id batch's generation: the pages generated and saved, or the
      failure of the batch. */
  type Generate = Call<seq<Id>, Page>

  /** The number of page ids generated together. */
  const GenerateBatch: nat := 5

  /** The id batches handed to the generator, and how the command ends. */
  datatype Run = Run(batches: seq<seq<Id>>, result: Result<seq<Page>, string>)

  /** `generate` after the templates are loaded: no page found generates
      nothing; otherwise the ids go to the generator in batches of five, one
      batch after the other, and the first failing batch ends the command. */
  function GenerateSite(types: seq<Id>, query: Query, f: string, gen: Generate): (r: Run)
    ensures CollectPageIds(types, query, f).Failure? ==>
      r == Run([], Failure(ScanErrorText(CollectPageIds(types, query, f).error)))
    ensures CollectPageIds(types, query, f) == Success([]) ==> r == Run([], Success([]))
    ensures CollectPageIds(types, query, f).Success? && |CollectPageIds(types, query, f).value| > 0 ==>
      var bs := Chunk(CollectPageIds(types, query, f).value, GenerateBatch);
      && 0 < |r.batches| <= |bs|
      && r.batches == bs[..|r.batches|]
      && (forall i :: 0 <= i < |r.batches| ==> 0 < |r.batches[i]| <= GenerateBatch)
      && (r.result.Success? ==> Flatten(r.batches) == CollectPageIds(types, query, f).value)
  {
    match CollectPageIds(types, query, f)
    case Failure(e) => Run([], Failure(ScanErrorText(e)))
    case Success(ids) =>
      if |ids| == 0 then Run([], Success([]))
      else
        var x := SendAll(Chunk(ids, GenerateBatch), gen, 0);
        SentPrefix(Chunk(ids, GenerateBatch), gen, 0);
        Run(x.sent, x.result)
  }

  /** Two pages with the same slug keep the command from generating
      anything. */
  lemma SharedSlugGeneratesNothing(types: seq<Id>, query: Query, f: string, gen: Generate, i: nat, j: nat)
    requires Listed(types, query).Success?
    requires i < j < |Listed(types, query).value|
    requires SlugOf(Listed(types, query).value[i], f) == SlugOf(Listed(types, query).value[j], f)
    ensures GenerateSite(types, query, f, gen).batches == []
    ensures GenerateSite(types, query, f, gen).result.Failure?
  {
    CollectPageIdsCorrect(types, query, f);
  }
}
