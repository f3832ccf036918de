/** The incremental publisher (`lib/publisher/index.js`): the effects of each
    content event on the site metadata table and the target bucket, and the
    sequencing of a batch of events.

    The metadata table is a map from id to record. A page's record lists the
    entries its output uses (`UsedEntryIds`) and where it is published
    (`PublishPath`); an entry's record lists the pages that use it
    (`PageEntryIds`); an asset's record lists its files (`FileNames`). The
    update actions behave as the table service documents them: `SET`
    overwrites attributes, `ADD` unions into a string set, `DELETE` removes
    elements and drops the attribute once the set is empty, an update creates
    a record holding only its key when none exists, and a string set may not
    be written empty. The bucket is a map from key to content. Store calls
    themselves always succeed; content fetches and asset downloads are
    parameters and may fail. */
module Publisher {
  import opened Wrappers
  import opened Seqs
  import opened Json
  import opened Runtime

  datatype Record = Record(
    usedEntryIds: Option<set<Id>>,
    publishPath: Option<string>,
    pageEntryIds: Option<set<Id>>,
    fileNames: Option<set<string>>)

  const NoRecord := Record(None, None, None, None)

  type Meta = map<Id, Record>

  datatype World = World(meta: Meta, objects: map<string, string>)

  /** A step's resulting world and the error it ended with, if any. The
      error is `crashed` when it was thrown from inside a store callback,
      outside every promise chain: it is never caught, and the invocation
      ends with it. */
  datatype Outcome = Outcome(world: World, error: Option<string>, crashed: bool := false)

  /** The deployment the publisher runs in. `fetch` answers a content query
      for a set of page ids with the page entries and the included content;
      `download` fetches an asset file by URL. */
  datatype Site = Site(
    pageContentTypes: seq<Id>,
    slugField: string,
    assetsPath: string,
    folder: Option<string>,
    bag: TemplatesBag,
    mime: string -> Option<string>,
    fetch: set<Id> -> Result<(seq<Entry>, Linked), string>,
    download: string -> Result<string, string>)

  // ------------------------------------------------------------ key prefix

  /** `getS3KeyPrefix`: a non-empty folder name followed by a slash, or
      nothing. */
  function GetS3KeyPrefix(folder: Option<string>): (r: string)
    ensures r == "" <==> folder.None? || folder.value == ""
    ensures r != "" ==> r[|r| - 1] == '/' && r[..|r| - 1] == folder.value
  {
    if folder.Some? && |folder.value| > 0 then folder.value + "/" else ""
  }

  /** The key under which the full-site sync of the publish command places a
      file at `path` relative to the generated site. */
  function SyncKey(folder: Option<string>, path: string): string {
    GetS3KeyPrefix(folder) + path
  }

  /** The key `publishPage` and `unpublishEntry` use for a page, as written:
      the publish path alone. */
  function PageKeyAsWritten(folder: Option<string>, publishPath: string): string {
    publishPath
  }

  /** The key of a page inside the target folder, as assets and the full-site
      sync place their files. */
  function PageKey(folder: Option<string>, publishPath: string): string {
    GetS3KeyPrefix(folder) + publishPath
  }

  /** A page's key is the target-folder prefix followed by the publish path,
      and so lies inside the folder when there is one. */
  lemma PageKeyInFolder(folder: Option<string>, publishPath: string)
    ensures var k := PageKey(folder, publishPath);
      && |k| == |GetS3KeyPrefix(folder)| + |publishPath|
      && k[..|GetS3KeyPrefix(folder)|] == GetS3KeyPrefix(folder)
      && k[|GetS3KeyPrefix(folder)|..] == publishPath
      && (folder.Some? && folder.value != "" ==> k[..|folder.value| + 1] == folder.value + "/")
  {
    var k := PageKey(folder, publishPath);
    if folder.Some? && folder.value != "" {
      assert k[..|folder.value| + 1] == k[..|GetS3KeyPrefix(folder)|];
    }
  }

  /** With a target folder, an incrementally published page lands outside
      it, away from the copy the full-site sync wrote. */
  lemma PageKeyMissesFolder()
    ensures PageKeyAsWritten(Some("blog"), "index.html") == "index.html"
    ensures SyncKey(Some("blog"), "index.html") == "blog/index.html"
    ensures PageKey(Some("blog"), "index.html") == SyncKey(Some("blog"), "index.html")
  {
  }

  /** The key of an asset file: the asset folder inside the target folder,
      then the file name. */
  function AssetKey(site: Site, fileName: string): string {
    GetS3KeyPrefix(site.folder) + site.assetsPath + "/" + fileName
  }

  /** An asset file's key is the asset folder inside the target folder
      followed by the file name. */
  lemma AssetKeyInFolder(site: Site, fileName: string)
    ensures var dir := GetS3KeyPrefix(site.folder) + site.assetsPath + "/";
      var k := AssetKey(site, fileName);
      && |k| == |dir| + |fileName|
      && k[..|dir|] == dir
      && k[|dir|..] == fileName
  {
  }

  /** Distinct publish paths never share an object key. */
  lemma PageKeyInjective(folder: Option<string>, p1: string, p2: string)
    ensures PageKey(folder, p1) == PageKey(folder, p2) <==> p1 == p2
  {
    var n := |GetS3KeyPrefix(folder)|;
    PageKeyInFolder(folder, p1);
    PageKeyInFolder(folder, p2);
    if PageKey(folder, p1) == PageKey(folder, p2) {
      assert p1 == PageKey(folder, p1)[n..] == PageKey(folder, p2)[n..] == p2;
    }
  }

  /** Distinct file names of one site never share an object key. */
  lemma AssetKeyInjective(site: Site, f1: string, f2: string)
    ensures AssetKey(site, f1) == AssetKey(site, f2) <==> f1 == f2
  {
    var n := |GetS3KeyPrefix(site.folder) + site.assetsPath + "/"|;
    AssetKeyInFolder(site, f1);
    AssetKeyInFolder(site, f2);
    if AssetKey(site, f1) == AssetKey(site, f2) {
      assert f1 == AssetKey(site, f1)[n..] == AssetKey(site, f2)[n..] == f2;
    }
  }

  /** A page whose publish path does not lie in the asset folder never
      overwrites an asset file. */
  lemma PageKeyAvoidsAssets(site: Site, publishPath: string, fileName: string)
    requires !(|site.assetsPath| + 1 <= |publishPath| &&
               publishPath[..|site.assetsPath| + 1] == site.assetsPath + "/")
    ensures PageKey(site.folder, publishPath) != AssetKey(site, fileName)
  {
    var pre := GetS3KeyPrefix(site.folder);
    var dir := site.assetsPath + "/";
    var k := AssetKey(site, fileName);
    PageKeyInFolder(site.folder, publishPath);
    AssetKeyInFolder(site, fileName);
    assert k[|pre|..][..|dir|] == dir;
  }

  // ------------------------------------------------------ record accessors

  function UsedIds(m: Meta, p: Id): set<Id> {
    if p in m && m[p].usedEntryIds.Some? then m[p].usedEntryIds.value else {}
  }

  function PageIds(m: Meta, e: Id): set<Id> {
    if e in m && m[e].pageEntryIds.Some? then m[e].pageEntryIds.value else {}
  }

  /** Every page lists exactly the entries that list it back. */
  ghost predicate Consistent(m: Meta) {
    forall p, e :: e in UsedIds(m, p) <==> p in PageIds(m, e)
  }

  // --------------------------------------------------- ADD / DELETE actions

  /** `ADD PageEntryIds :p` on the record of `e`. */
  function AddRef(m: Meta, e: Id, p: Id): (r: Meta)
    ensures r.Keys == m.Keys + {e}
    ensures PageIds(r, e) == PageIds(m, e) + {p}
    ensures e in m ==> r[e] == m[e].(pageEntryIds := r[e].pageEntryIds)
    ensures e !in m ==> r[e] == NoRecord.(pageEntryIds := Some({p}))
    ensures forall k :: k in m && k != e ==> r[k] == m[k]
  {
    var rec := if e in m then m[e] else NoRecord;
    assert e !in m ==> PageIds(m, e) + {p} == {p};
    m[e := rec.(pageEntryIds := Some(PageIds(m, e) + {p}))]
  }

  /** `DELETE PageEntryIds :p` on the record of `e`. */
  function DeleteRef(m: Meta, e: Id, p: Id): (r: Meta)
    ensures r.Keys == m.Keys + {e}
    ensures PageIds(r, e) == PageIds(m, e) - {p}
    ensures r[e].pageEntryIds != Some({})
    ensures e in m ==> r[e] == m[e].(pageEntryIds := r[e].pageEntryIds)
    ensures e !in m ==> r[e] == NoRecord
    ensures forall k :: k in m && k != e ==> r[k] == m[k]
  {
    var rec := if e in m then m[e] else NoRecord;
    var rest := PageIds(m, e) - {p};
    m[e := rec.(pageEntryIds := if rest == {} then None else Some(rest))]
  }

  /** `ADD` for every entry of `es`, in any order. */
  function AddRefs(m: Meta, es: set<Id>, p: Id): (r: Meta)
    ensures r.Keys == m.Keys + es
    ensures forall e :: e in es ==> r[e] == AddRef(m, e, p)[e]
    ensures forall k :: k in m && k !in es ==> r[k] == m[k]
  {
    map k | k in m.Keys + es :: if k in es then AddRef(m, k, p)[k] else m[k]
  }

  /** `DELETE` for every entry of `es`, in any order. */
  function DeleteRefs(m: Meta, es: set<Id>, p: Id): (r: Meta)
    ensures r.Keys == m.Keys + es
    ensures forall e :: e in es ==> r[e] == DeleteRef(m, e, p)[e]
    ensures forall k :: k in m && k !in es ==> r[k] == m[k]
  {
    map k | k in m.Keys + es :: if k in es then DeleteRef(m, k, p)[k] else m[k]
  }

  lemma AddRefsNone(m: Meta, p: Id)
    ensures AddRefs(m, {}, p) == m
  {
  }

  lemma DeleteRefsNone(m: Meta, p: Id)
    ensures DeleteRefs(m, {}, p) == m
  {
  }

  lemma AddRefsStep(m: Meta, es: set<Id>, e: Id, p: Id)
    ensures AddRef(AddRefs(m, es, p), e, p) == AddRefs(m, es + {e}, p)
  {
    var a := AddRef(AddRefs(m, es, p), e, p);
    var b := AddRefs(m, es + {e}, p);
    assert a.Keys == b.Keys;
    forall k | k in a.Keys
      ensures a[k] == b[k]
    {
      AddRefsStepAt(m, es, e, p, k);
    }
    MapExt(a, b);
  }

  lemma AddRefsStepAt(m: Meta, es: set<Id>, e: Id, p: Id, k: Id)
    requires k in m || k in es || k == e
    ensures AddRef(AddRefs(m, es, p), e, p)[k] == AddRefs(m, es + {e}, p)[k]
  {
    var ar := AddRefs(m, es, p);
    if k == e {
      if e in es {
        assert ar[e] == AddRef(m, e, p)[e];
        assert PageIds(ar, e) == PageIds(m, e) + {p};
      } else {
        assert e in m ==> ar[e] == m[e];
        assert PageIds(ar, e) == PageIds(m, e);
      }
    }
  }

  lemma DeleteRefsStep(m: Meta, es: set<Id>, e: Id, p: Id)
    ensures DeleteRef(DeleteRefs(m, es, p), e, p) == DeleteRefs(m, es + {e}, p)
  {
    var a := DeleteRef(DeleteRefs(m, es, p), e, p);
    var b := DeleteRefs(m, es + {e}, p);
    assert a.Keys == b.Keys;
    forall k | k in a.Keys
      ensures a[k] == b[k]
    {
      DeleteRefsStepAt(m, es, e, p, k);
    }
    MapExt(a, b);
  }

  lemma DeleteRefsStepAt(m: Meta, es: set<Id>, e: Id, p: Id, k: Id)
    requires k in m || k in es || k == e
    ensures DeleteRef(DeleteRefs(m, es, p), e, p)[k] == DeleteRefs(m, es + {e}, p)[k]
  {
    if k == e && e in es {
      var rest := PageIds(m, e) - {p};
      assert PageIds(DeleteRefs(m, es, p), e) == rest;
      assert rest - {p} == rest;
    }
  }

  /** One more step of the loop covers one more element of the list. */
  lemma AddRefsPrefix(m: Meta, es: seq<Id>, i: nat, p: Id)
    requires i < |es|
    ensures AddRef(AddRefs(m, Elems(es[..i]), p), es[i], p) == AddRefs(m, Elems(es[..i + 1]), p)
  {
    AddRefsStep(m, Elems(es[..i]), es[i], p);
    ElemsTakeSnoc(es, i);
  }

  /** The source's loop of `ADD` updates, one entry at a time, reaches the
      same table whatever the order and repetitions of the list. */
  method AddEach(m: Meta, es: seq<Id>, p: Id) returns (r: Meta)
    ensures r == AddRefs(m, Elems(es), p)
  {
    r := m;
    var i := 0;
    ElemsTakeEnds(es);
    AddRefsNone(m, p);
    while i < |es|
      invariant 0 <= i <= |es|
      invariant r == AddRefs(m, Elems(es[..i]), p)
    {
      AddRefsPrefix(m, es, i, p);
      r := AddRef(r, es[i], p);
      i := i + 1;
    }
  }

  /** One more step of the loop covers one more element of the list. */
  lemma DeleteRefsPrefix(m: Meta, es: seq<Id>, i: nat, p: Id)
    requires i < |es|
    ensures DeleteRef(DeleteRefs(m, Elems(es[..i]), p), es[i], p) == DeleteRefs(m, Elems(es[..i + 1]), p)
  {
    DeleteRefsStep(m, Elems(es[..i]), es[i], p);
    ElemsTakeSnoc(es, i);
  }

  /** The source's loop of `DELETE` updates, one entry at a time. */
  method DeleteEach(m: Meta, es: seq<Id>, p: Id) returns (r: Meta)
    ensures r == DeleteRefs(m, Elems(es), p)
  {
    r := m;
    var i := 0;
    ElemsTakeEnds(es);
    DeleteRefsNone(m, p);
    while i < |es|
      invariant 0 <= i <= |es|
      invariant r == DeleteRefs(m, Elems(es[..i]), p)
    {
      DeleteRefsPrefix(m, es, i, p);
      r := DeleteRef(r, es[i], p);
      i := i + 1;
    }
  }

  // ------------------------------------------------------------ publishPage

  /** The metadata updates of `publishPage` for a page with involved
      entries: `SET` on the page's record, `DELETE` on entries it no longer
      uses, `ADD` on entries it uses. */
  function RecordPage(m: Meta, page: Page): (r: Meta)
    ensures page.pageEntryId in r
    ensures r[page.pageEntryId].usedEntryIds == Some(page.involvedEntryIds)
    ensures r[page.pageEntryId].publishPath == Some(page.publishPath)
  {
    var p := page.pageEntryId;
    var involved := page.involvedEntryIds;
    var rec := if p in m then m[p] else NoRecord;
    var m1 := m[p := rec.(usedEntryIds := Some(involved), publishPath := Some(page.publishPath))];
    var m2 := DeleteRefs(m1, UsedIds(m, p) - involved, p);
    AddRefs(m2, involved, p)
  }

  /** After `publishPage` the page lists exactly its involved entries, each
      of them lists the page, entries it no longer uses do not, and no other
      page's links change. */
  lemma RecordPageLinks(m: Meta, page: Page)
    ensures var p := page.pageEntryId;
      var r := RecordPage(m, page);
      && UsedIds(r, p) == page.involvedEntryIds
      && (forall e :: e in page.involvedEntryIds ==> p in PageIds(r, e))
      && (forall e :: e in UsedIds(m, p) && e !in page.involvedEntryIds ==> p !in PageIds(r, e))
      && (forall e :: e !in UsedIds(m, p) && e !in page.involvedEntryIds ==> PageIds(r, e) == PageIds(m, e))
      && (forall e, q :: q != p ==> (q in PageIds(r, e) <==> q in PageIds(m, e)))
      && (forall q :: q != p ==> UsedIds(r, q) == UsedIds(m, q))
  {
    RecordPageSteps(m, page);
  }

  /** `RecordPage` as the change it makes to each entry's page set, and to
      each page's entry set. */
  lemma RecordPageSteps(m: Meta, page: Page)
    ensures var p := page.pageEntryId;
      var r := RecordPage(m, page);
      var removed := UsedIds(m, p) - page.involvedEntryIds;
      && (forall e :: PageIds(r, e) ==
            if e in page.involvedEntryIds then PageIds(m, e) + {p}
            else if e in removed then PageIds(m, e) - {p}
            else PageIds(m, e))
      && UsedIds(r, p) == page.involvedEntryIds
      && (forall q :: q != p ==> UsedIds(r, q) == UsedIds(m, q))
  {
    var p := page.pageEntryId;
    var involved := page.involvedEntryIds;
    var rec := if p in m then m[p] else NoRecord;
    var m1 := m[p := rec.(usedEntryIds := Some(involved), publishPath := Some(page.publishPath))];
    var removed := UsedIds(m, p) - involved;
    var m2 := DeleteRefs(m1, removed, p);
    StampLinks(m, p, involved, page.publishPath);
    DeleteRefsLinks(m1, removed, p);
    AddRefsLinks(m2, involved, p);
  }

  /** `SET` of the page's own attributes leaves every entry's pages and
      every other page's entries alone. */
  lemma StampLinks(m: Meta, p: Id, involved: set<Id>, path: string)
    ensures var rec := if p in m then m[p] else NoRecord;
      var m1 := m[p := rec.(usedEntryIds := Some(involved), publishPath := Some(path))];
      && UsedIds(m1, p) == involved
      && (forall e :: PageIds(m1, e) == PageIds(m, e))
      && (forall q :: q != p ==> UsedIds(m1, q) == UsedIds(m, q))
  {
  }

  lemma DeleteRefsLinks(m: Meta, es: set<Id>, p: Id)
    ensures forall e :: PageIds(DeleteRefs(m, es, p), e) == if e in es then PageIds(m, e) - {p} else PageIds(m, e)
    ensures forall q :: UsedIds(DeleteRefs(m, es, p), q) == UsedIds(m, q)
  {
  }

  lemma AddRefsLinks(m: Meta, es: set<Id>, p: Id)
    ensures forall e :: PageIds(AddRefs(m, es, p), e) == if e in es then PageIds(m, e) + {p} else PageIds(m, e)
    ensures forall q :: UsedIds(AddRefs(m, es, p), q) == UsedIds(m, q)
  {
  }

  /** `publishPage`: upload the page, then record its links. With nothing
      involved the record update is refused (an empty string set) after the
      upload, and the metadata stays as it was. */
  function PublishPage(w: World, folder: Option<string>, page: Page): (o: Outcome)
    ensures o.world.objects == w.objects[PageKey(folder, page.publishPath) := page.content]
    ensures page.involvedEntryIds == {} ==> o.world.meta == w.meta && o.error.Some?
    ensures page.involvedEntryIds != {} ==> o.error.None? && o.world.meta == RecordPage(w.meta, page)
  {
    var objects := w.objects[PageKey(folder, page.publishPath) := page.content];
    if page.involvedEntryIds == {} then
      Outcome(World(w.meta, objects), Some("an empty string set cannot be stored"))
    else
      Outcome(World(RecordPage(w.meta, page), objects), None)
  }

  /** Publishing a page keeps the page/entry links consistent. */
  lemma PublishPageKeepsConsistent(w: World, folder: Option<string>, page: Page)
    requires Consistent(w.meta)
    ensures Consistent(PublishPage(w, folder, page).world.meta)
  {
    if page.involvedEntryIds != {} {
      var m := RecordPage(w.meta, page);
      var p := page.pageEntryId;
      RecordPageLinks(w.meta, page);
      forall q, e
        ensures e in UsedIds(m, q) <==> q in PageIds(m, e)
      {
        if q == p {
          if e !in page.involvedEntryIds && e !in UsedIds(w.meta, p) {
            assert p !in PageIds(w.meta, e);
          }
        }
      }
    }
  }

  /** The pages of a generation run, one after the other; the first failure
      ends the run and later pages stay unpublished. */
  function PublishPages(w: World, folder: Option<string>, pages: seq<Page>): (o: Outcome)
    ensures o.error.None? <==> forall i :: 0 <= i < |pages| ==> pages[i].involvedEntryIds != {}
    decreases |pages|
  {
    if |pages| == 0 then Outcome(w, None)
    else
      var first := PublishPage(w, folder, pages[0]);
      if first.error.Some? then first
      else
        var rest := PublishPages(first.world, folder, pages[1..]);
        assert forall i :: 0 < i < |pages| ==> pages[i] == pages[1..][i - 1];
        rest
  }

  lemma {:induction false} PublishPagesKeepsConsistent(w: World, folder: Option<string>, pages: seq<Page>)
    requires Consistent(w.meta)
    ensures Consistent(PublishPages(w, folder, pages).world.meta)
    decreases |pages|
  {
    if |pages| > 0 {
      PublishPageKeepsConsistent(w, folder, pages[0]);
      var first := PublishPage(w, folder, pages[0]);
      if first.error.None? {
        PublishPagesKeepsConsistent(first.world, folder, pages[1..]);
      }
    }
  }

  // ---------------------------------------------------------- publishEntry

  /** The pages a non-page entry is used by, as written: a record without
      `PageEntryIds` makes the property read fail. */
  function PagesOfEntryAsWritten(m: Meta, e: Id): (r: Result<set<Id>, TypeError>)
    ensures r.Failure? <==> e in m && m[e].pageEntryIds.None?
    ensures r.Success? ==> r.value == PageIds(m, e)
  {
    if e !in m then Success({})
    else if m[e].pageEntryIds.None? then Failure(TypeError("cannot read property SS of undefined"))
    else Success(m[e].pageEntryIds.value)
  }

  /** The pages a non-page entry is used by, no record or no attribute
      meaning none. */
  function PagesOfEntry(m: Meta, e: Id): (r: set<Id>)
    ensures Consistent(m) ==> forall p :: p in r <==> e in UsedIds(m, p)
  {
    PageIds(m, e)
  }

  /** An entry that has been dropped from its only page keeps a record with
      no `PageEntryIds`; publishing it then fails as written. */
  lemma DroppedEntryBreaksPublish()
    ensures var w := World(map[], map[]);
      var used := Page("P", {"M"}, "p.html", None, "v1");
      var unused := Page("P", {"N"}, "p.html", None, "v2");
      var m := PublishPage(PublishPage(w, None, used).world, None, unused).world.meta;
      && PagesOfEntryAsWritten(m, "M").Failure?
      && PagesOfEntry(m, "M") == {}
  {
    var w := World(map[], map[]);
    var used := Page("P", {"M"}, "p.html", None, "v1");
    var unused := Page("P", {"N"}, "p.html", None, "v2");
    var w1 := PublishPage(w, None, used).world;
    assert UsedIds(w1.meta, "P") == {"M"};
    assert PageIds(w1.meta, "M") == {"P"};
    var m := PublishPage(w1, None, unused).world.meta;
    assert PageIds(m, "M") == {};
    assert "M" in m;
  }

  /** The pages `publishEntry` regenerates: the entry itself when it is a
      page, otherwise the pages recorded as using it. */
  function PagesToRegenerate(site: Site, m: Meta, id: Id, contentType: Id): (r: set<Id>)
    ensures contentType in site.pageContentTypes ==> r == {id}
    ensures contentType !in site.pageContentTypes ==> r == PagesOfEntry(m, id)
  {
    if contentType in site.pageContentTypes then {id} else PagesOfEntry(m, id)
  }

  function GenErrorText(e: GenError): string {
    match e
    case NoFields(id) => "page entry id " + id + " has no fields"
    case SlugNotString(id) => "page entry id " + id + " does not have a slug or its value is not a string"
    case LinkNotIncluded(id) => "linked entry id " + id + " is not included in the content"
    case NoTemplates(t) => "no templates found for page type " + t
    case RenderFailed(_, message) => message
  }

  /** `publishEntry`: no pages to regenerate means nothing happens; otherwise
      the pages are fetched and generated, and the generated ones are
      published, including those generated before a failure. (The code
      leaves the publishing of those unawaited; here it completes before the
      next record.) */
  function PublishEntry(w: World, site: Site, id: Id, contentType: Id): (o: Outcome)
    ensures PagesToRegenerate(site, w.meta, id, contentType) == {} ==> o == Outcome(w, None)
    ensures site.fetch(PagesToRegenerate(site, w.meta, id, contentType)).Failure? ==> o.world == w
    ensures PagesToRegenerate(site, w.meta, id, contentType) != {} &&
            site.fetch(PagesToRegenerate(site, w.meta, id, contentType)).Success? ==>
      var content := site.fetch(PagesToRegenerate(site, w.meta, id, contentType)).value;
      var gen := e => GeneratePages(e, content.1.entries, site.slugField, site.bag, site.mime);
      && o.world == PublishPages(w, site.folder, GenerateAll(content.0, gen).0).world
      && (GenerateAll(content.0, gen).1.Some? ==> o.error == Some(GenErrorText(GenerateAll(content.0, gen).1.value)))
      && (GenerateAll(content.0, gen).1.None? ==>
            && o.error == PublishPages(w, site.folder, GenerateAll(content.0, gen).0).error
            && (o.error.None? <==> forall i :: 0 <= i < |GenerateAll(content.0, gen).0| ==>
                                     GenerateAll(content.0, gen).0[i].involvedEntryIds != {}))
    ensures PagesToRegenerate(site, w.meta, id, contentType) != {} &&
            site.fetch(PagesToRegenerate(site, w.meta, id, contentType)).Failure? ==>
      o.error == Some(site.fetch(PagesToRegenerate(site, w.meta, id, contentType)).error)
    ensures !o.crashed
  {
    var ids := PagesToRegenerate(site, w.meta, id, contentType);
    if ids == {} then Outcome(w, None)
    else
      match site.fetch(ids)
      case Failure(e) => Outcome(w, Some(e))
      case Success(content) =>
        var gen := e => GeneratePages(e, content.1.entries, site.slugField, site.bag, site.mime);
        var (pages, genError) := GenerateAll(content.0, gen);
        var published := PublishPages(w, site.folder, pages);
        var error := if genError.Some? then Some(GenErrorText(genError.value)) else published.error;
        Outcome(published.world, error)
  }

  /** Publishing an entry never breaks the page/entry links. */
  lemma PublishEntryKeepsConsistent(w: World, site: Site, id: Id, contentType: Id)
    requires Consistent(w.meta)
    ensures Consistent(PublishEntry(w, site, id, contentType).world.meta)
  {
    var ids := PagesToRegenerate(site, w.meta, id, contentType);
    if ids != {} && site.fetch(ids).Success? {
      var content := site.fetch(ids).value;
      var gen := e => GeneratePages(e, content.1.entries, site.slugField, site.bag, site.mime);
      PublishPagesKeepsConsistent(w, site.folder, GenerateAll(content.0, gen).0);
    }
  }

  // -------------------------------------------------------- unpublishEntry

  /** `unpublishEntry`: a non-page entry changes nothing. A page's record is
      deleted and the page is dropped from every entry it used; the page's
      object is then deleted. A missing record, or one without a publish
      path, fails at the property read inside the promise chain. A record
      without used entries throws inside the store callback, right after the
      deletion. */
  function UnpublishEntry(w: World, site: Site, id: Id, contentType: Id): (o: Outcome)
    ensures contentType !in site.pageContentTypes ==> o == Outcome(w, None)
    ensures contentType in site.pageContentTypes ==>
      && id !in o.world.meta - UsedIds(w.meta, id)
      && (o.error.None? <==> id in w.meta && w.meta[id].usedEntryIds.Some? && w.meta[id].publishPath.Some?)
      && (o.crashed <==> id in w.meta && w.meta[id].usedEntryIds.None?)
      && (o.crashed ==> o.world == World(w.meta - {id}, w.objects) && o.error.Some?)
      && (forall e :: e in UsedIds(w.meta, id) && e != id ==> id !in PageIds(o.world.meta, e))
      && (forall e, q :: q != id && e != id ==> (q in PageIds(o.world.meta, e) <==> q in PageIds(w.meta, e)))
      && (forall q :: q != id ==> UsedIds(o.world.meta, q) == UsedIds(w.meta, q))
    ensures contentType in site.pageContentTypes && o.error.None? ==>
      o.world.objects == w.objects - {PageKey(site.folder, w.meta[id].publishPath.value)}
  {
    if contentType !in site.pageContentTypes then Outcome(w, None)
    else if id !in w.meta then
      Outcome(w, Some("cannot read property PublishPath of undefined"))
    else
      var rec := w.meta[id];
      var m1 := w.meta - {id};
      DropPageLinks(w.meta, id);
      if rec.usedEntryIds.None? then
        Outcome(World(m1, w.objects), Some("cannot read property SS of undefined"), true)
      else
        var m2 := DeleteRefs(m1, rec.usedEntryIds.value, id);
        if rec.publishPath.None? then
          Outcome(World(m2, w.objects), Some("cannot read property S of undefined"))
        else
          Outcome(World(m2, w.objects - {PageKey(site.folder, rec.publishPath.value)}), None)
  }

  /** Deleting a page's record, then its id from the lists of the entries
      it used, touches no other page's links. */
  lemma DropPageLinks(m: Meta, id: Id)
    requires id in m
    ensures var m1 := m - {id};
      && (forall q :: q != id ==> UsedIds(m1, q) == UsedIds(m, q))
      && (forall e :: e != id ==> PageIds(m1, e) == PageIds(m, e))
      && UsedIds(m1, id) == {} && PageIds(m1, id) == {}
    ensures m[id].usedEntryIds.Some? ==>
      var m2 := DeleteRefs(m - {id}, m[id].usedEntryIds.value, id);
      && id !in m2 - UsedIds(m, id)
      && (forall e :: e in UsedIds(m, id) && e != id ==> id !in PageIds(m2, e))
      && (forall e, q :: q != id && e != id ==> (q in PageIds(m2, e) <==> q in PageIds(m, e)))
      && (forall q :: q != id ==> UsedIds(m2, q) == UsedIds(m, q))
  {
    var m1 := m - {id};
    forall q | q != id
      ensures UsedIds(m1, q) == UsedIds(m, q) && PageIds(m1, q) == PageIds(m, q)
    {
      assert q in m1 <==> q in m;
      assert q in m1 ==> m1[q] == m[q];
    }
    if m[id].usedEntryIds.Some? {
      DeleteRefsLinks(m1, m[id].usedEntryIds.value, id);
    }
  }

  /** Unpublishing a page that no other page uses keeps the links
      consistent. */
  lemma UnpublishEntryKeepsConsistent(w: World, site: Site, id: Id, contentType: Id)
    requires Consistent(w.meta)
    requires PageIds(w.meta, id) == {}
    ensures Consistent(UnpublishEntry(w, site, id, contentType).world.meta)
  {
    var m := UnpublishEntry(w, site, id, contentType).world.meta;
    if contentType in site.pageContentTypes && id in w.meta {
      forall q, e
        ensures e in UsedIds(m, q) <==> q in PageIds(m, e)
      {
        if q == id {
          assert UsedIds(m, id) == {};
          if e !in UsedIds(w.meta, id) {
            assert id !in PageIds(w.meta, e);
          }
        }
        if e == id {
          assert PageIds(m, id) == {};
          assert q !in PageIds(w.meta, id);
        }
      }
    }
  }

  // ----------------------------------------------------------- publishAsset

  /** The file name of an asset URL: the text after its last slash. */
  function FileName(url: string): (name: string)
    ensures '/' !in name
    ensures |name| <= |url| && url[|url| - |name|..] == name
    ensures |name| < |url| ==> url[|url| - |name| - 1] == '/'
  {
    var k := LastIndexOf(url, '/');
    var name := SubstringFrom(url, k + 1);
    assert name == url[k + 1..];
    name
  }

  /** The files of an asset's `file` field: the field itself when its `url`
      is truthy, otherwise `Object.values` of it (the per-locale files of an
      object, the elements of an array). A missing or null field throws. */
  function AssetFiles(file: Option<Value>): (r: Result<seq<Value>, TypeError>)
    ensures r.Failure? <==> file.None? || file == Some(Null)
    ensures file.Some? && HasUrl(file.value) ==> r == Success([file.value])
    ensures file.Some? && file.value.Obj? && !HasUrl(file.value) ==>
      r.Success? && |r.value| == |file.value.props| &&
      forall i :: 0 <= i < |r.value| ==> r.value[i] == file.value.props[i].1
    ensures file.Some? && file.value.Arr? ==> r == Success(file.value.items)
  {
    var url :- Member(file, "url");
    if url.Some? && Truthy(url.value) then Success([file.value])
    else Success(ObjectValues(file.value))
  }

  /** `file.url` is truthy. */
  predicate HasUrl(file: Value) {
    file.Obj? && Get(file.props, "url").Some? && Truthy(Get(file.props, "url").value)
  }

  /** `Object.values` of a value that is not null: the property values of an
      object, the elements of an array, the characters of a string, and the
      `sys` object of a link. */
  function ObjectValues(v: Value): seq<Value> {
    match v
    case Obj(props) => seq(|props|, i requires 0 <= i < |props| => props[i].1)
    case Arr(items) => items
    case Str(s) => seq(|s|, i requires 0 <= i < |s| => Str([s[i]]))
    case Link(linkType, target) => [Obj([("type", Str("Link")), ("linkType", Str(linkType)), ("id", Str(target))])]
    case _ => []
  }

  /** `file.url.substring(...)`: only a file object with a string `url` has
      one; on anything else the call throws. */
  function FileUrl(file: Value): Result<string, TypeError> {
    if file.Obj? && Get(file.props, "url").Some? && Get(file.props, "url").value.Str? then
      Success(Get(file.props, "url").value.s)
    else Failure(TypeError("cannot read property substring of a file without url"))
  }

  /** Only a file object whose `url` is a string yields a URL, and it is
      that string. */
  lemma FileUrlIff(file: Value)
    ensures FileUrl(file).Success? <==>
      file.Obj? && Get(file.props, "url").Some? && Get(file.props, "url").value.Str?
    ensures FileUrl(file).Success? ==> FileUrl(file).value == Get(file.props, "url").value.s
  {
  }

  /** Each file's URL, or the error reading it throws. */
  function UrlResults(files: seq<Value>): (us: seq<Result<string, TypeError>>)
    ensures |us| == |files|
    ensures forall i :: 0 <= i < |files| ==> us[i] == FileUrl(files[i])
  {
    seq(|files|, i requires 0 <= i < |files| => FileUrl(files[i]))
  }

  /** The URLs, when every file has one. */
  function UrlsOf(us: seq<Result<string, TypeError>>): (urls: seq<string>)
    requires forall i :: 0 <= i < |us| ==> us[i].Success?
    ensures |urls| == |us|
    ensures forall i :: 0 <= i < |us| ==> urls[i] == us[i].value
  {
    seq(|us|, i requires 0 <= i < |us| && us[i].Success? => us[i].value)
  }

  /** The step for a file gets through: its URL was read and downloads. */
  predicate FileUploads(site: Site, u: Result<string, TypeError>) {
    u.Success? && site.download(u.value).Success?
  }

  /** How many files get through before the first step that fails. */
  function FilesUploaded(site: Site, us: seq<Result<string, TypeError>>): (k: nat)
    ensures k <= |us|
    ensures forall i :: 0 <= i < k ==> FileUploads(site, us[i])
    ensures k < |us| ==> !FileUploads(site, us[k])
  {
    if |us| == 0 || !FileUploads(site, us[0]) then 0
    else 1 + FilesUploaded(site, us[1..])
  }

  /** Take each file's URL, download it and upload it, in turn; the first
      step that fails stops the rest, and the files before it stay uploaded. */
  function UploadFiles(objects: map<string, string>, site: Site, us: seq<Result<string, TypeError>>):
    (r: (map<string, string>, Option<string>))
    ensures r.1.None? <==> FilesUploaded(site, us) == |us|
    ensures forall i :: 0 <= i < FilesUploaded(site, us) ==> AssetKey(site, FileName(us[i].value)) in r.0
    ensures objects.Keys <= r.0.Keys
    decreases |us|
  {
    if |us| == 0 then (objects, None)
    else
      match us[0]
      case Failure(e) => (objects, Some(e.what))
      case Success(url) =>
        match site.download(url)
        case Failure(e) => (objects, Some(e))
        case Success(body) =>
          var rest := UploadFiles(objects[AssetKey(site, FileName(url)) := body], site, us[1..]);
          assert forall i :: 0 < i < |us| ==> us[i] == us[1..][i - 1];
          rest
  }

  /** The URLs of the files that get through, in order. */
  function UploadedUrls(site: Site, us: seq<Result<string, TypeError>>): (ups: seq<string>)
    ensures |ups| == FilesUploaded(site, us)
    ensures forall i :: 0 <= i < |ups| ==> us[i] == Success(ups[i]) && site.download(ups[i]).Success?
  {
    seq(FilesUploaded(site, us), i requires 0 <= i < FilesUploaded(site, us) => us[i].value)
  }

  /** The bucket keys the given files are uploaded under. */
  function UploadKeys(site: Site, ups: seq<string>): set<string> {
    set i | 0 <= i < |ups| :: AssetKey(site, FileName(ups[i]))
  }

  /** No later file is uploaded under the same key as file `i`. */
  predicate LastUpload(site: Site, ups: seq<string>, i: nat)
    requires i < |ups|
  {
    forall j :: i < j < |ups| ==> AssetKey(site, FileName(ups[j])) != AssetKey(site, FileName(ups[i]))
  }

  /** What the uploads leave in the bucket: the old objects plus one object
      per uploaded file name, holding the download of the last file with that
      name; every other object is untouched. */
  lemma UploadFilesStores(objects: map<string, string>, site: Site, us: seq<Result<string, TypeError>>)
    ensures var r := UploadFiles(objects, site, us).0;
      var ups := UploadedUrls(site, us);
      && r.Keys == objects.Keys + UploadKeys(site, ups)
      && (forall k :: k in objects && k !in UploadKeys(site, ups) ==> r[k] == objects[k])
      && (forall i :: 0 <= i < |ups| && LastUpload(site, ups, i) ==>
            r[AssetKey(site, FileName(ups[i]))] == site.download(ups[i]).value)
  {
    UploadFilesKeys(objects, site, us);
    UploadFilesFrame(objects, site, us);
    UploadFilesContent(objects, site, us);
  }

  lemma {:induction false} UploadFilesKeys(objects: map<string, string>, site: Site, us: seq<Result<string, TypeError>>)
    ensures UploadFiles(objects, site, us).0.Keys == objects.Keys + UploadKeys(site, UploadedUrls(site, us))
    decreases |us|
  {
    var ups := UploadedUrls(site, us);
    if |ups| == 0 {
      assert UploadKeys(site, ups) == {};
    } else {
      var url := us[0].value;
      var objects' := objects[AssetKey(site, FileName(url)) := site.download(url).value];
      UploadFilesKeys(objects', site, us[1..]);
      UploadedUrlsTail(site, us);
      UploadFilesCons(objects, site, us);
      UploadKeysCons(site, ups);
    }
  }

  lemma {:induction false} UploadFilesFrame(objects: map<string, string>, site: Site, us: seq<Result<string, TypeError>>)
    ensures forall k :: k in objects && k !in UploadKeys(site, UploadedUrls(site, us)) ==>
      k in UploadFiles(objects, site, us).0 && UploadFiles(objects, site, us).0[k] == objects[k]
    decreases |us|
  {
    var ups := UploadedUrls(site, us);
    if |ups| == 0 {
      assert UploadKeys(site, ups) == {};
    } else {
      var url := us[0].value;
      var objects' := objects[AssetKey(site, FileName(url)) := site.download(url).value];
      UploadFilesFrame(objects', site, us[1..]);
      UploadedUrlsTail(site, us);
      UploadFilesCons(objects, site, us);
      UploadKeysCons(site, ups);
    }
  }

  lemma {:induction false} UploadFilesContent(objects: map<string, string>, site: Site, us: seq<Result<string, TypeError>>)
    ensures var ups := UploadedUrls(site, us);
      forall i :: 0 <= i < |ups| && LastUpload(site, ups, i) ==>
        AssetKey(site, FileName(ups[i])) in UploadFiles(objects, site, us).0 &&
        UploadFiles(objects, site, us).0[AssetKey(site, FileName(ups[i]))] == site.download(ups[i]).value
    decreases |us|
  {
    var ups := UploadedUrls(site, us);
    if |ups| > 0 {
      var url := us[0].value;
      var key := AssetKey(site, FileName(url));
      var objects' := objects[key := site.download(url).value];
      UploadedUrlsTail(site, us);
      UploadFilesCons(objects, site, us);
      var r := UploadFiles(objects, site, us).0;
      forall i | 0 <= i < |ups| && LastUpload(site, ups, i)
        ensures AssetKey(site, FileName(ups[i])) in r && r[AssetKey(site, FileName(ups[i]))] == site.download(ups[i]).value
      {
        if i == 0 {
          FirstLastUpload(site, ups);
          UploadFilesFrame(objects', site, us[1..]);
        } else {
          LastUploadTail(site, ups, i);
          UploadFilesContent(objects', site, us[1..]);
        }
      }
    }
  }

  lemma UploadFilesCons(objects: map<string, string>, site: Site, us: seq<Result<string, TypeError>>)
    requires FilesUploaded(site, us) > 0
    ensures UploadFiles(objects, site, us) ==
            UploadFiles(objects[AssetKey(site, FileName(us[0].value)) := site.download(us[0].value).value], site, us[1..])
  {
  }

  lemma UploadKeysCons(site: Site, ups: seq<string>)
    requires |ups| > 0
    ensures UploadKeys(site, ups) == {AssetKey(site, FileName(ups[0]))} + UploadKeys(site, ups[1..])
  {
    forall k | k in UploadKeys(site, ups) ensures k in {AssetKey(site, FileName(ups[0]))} + UploadKeys(site, ups[1..]) {
      var i :| 0 <= i < |ups| && k == AssetKey(site, FileName(ups[i]));
      if i > 0 { assert ups[i] == ups[1..][i - 1]; }
    }
    forall k | k in UploadKeys(site, ups[1..]) ensures k in UploadKeys(site, ups) {
      var i :| 0 <= i < |ups[1..]| && k == AssetKey(site, FileName(ups[1..][i]));
      assert ups[1..][i] == ups[i + 1];
    }
  }

  lemma FirstLastUpload(site: Site, ups: seq<string>)
    requires |ups| > 0 && LastUpload(site, ups, 0)
    ensures AssetKey(site, FileName(ups[0])) !in UploadKeys(site, ups[1..])
  {
    forall j | 0 <= j < |ups[1..]| ensures AssetKey(site, FileName(ups[1..][j])) != AssetKey(site, FileName(ups[0])) {
      assert ups[1..][j] == ups[j + 1];
    }
  }

  lemma LastUploadTail(site: Site, ups: seq<string>, i: nat)
    requires 0 < i < |ups| && LastUpload(site, ups, i)
    ensures LastUpload(site, ups[1..], i - 1)
  {
    forall j | i - 1 < j < |ups[1..]|
      ensures AssetKey(site, FileName(ups[1..][j])) != AssetKey(site, FileName(ups[1..][i - 1]))
    {
      assert ups[1..][j] == ups[j + 1];
    }
  }

  /** After a first file that gets through, the rest upload as their own list. */
  lemma UploadedUrlsTail(site: Site, us: seq<Result<string, TypeError>>)
    requires FilesUploaded(site, us) > 0
    ensures UploadedUrls(site, us[1..]) == UploadedUrls(site, us)[1..]
  {
  }

  /** The file names of a list of URLs. */
  function FileNames(urls: seq<string>): (names: set<string>)
    ensures forall n :: n in names <==> exists i :: 0 <= i < |urls| && FileName(urls[i]) == n
    ensures names == {} <==> urls == []
  {
    var names := set i | 0 <= i < |urls| :: FileName(urls[i]);
    assert |urls| > 0 ==> FileName(urls[0]) in names;
    names
  }

  /** `publishAsset`: the files are uploaded under the assets path and the
      asset's record then lists their names. A file without a URL or a failed
      download stops the uploads and leaves the record untouched, and so
      does an asset without files (the empty set is refused). */
  function PublishAsset(w: World, site: Site, id: Id, file: Option<Value>): (o: Outcome)
    ensures !o.crashed
    ensures o.world.meta == w.meta || o.error.None?
    ensures o.error.None? <==>
      AssetFiles(file).Success? && 0 < FilesUploaded(site, UrlResults(AssetFiles(file).value)) == |AssetFiles(file).value|
    ensures o.error.None? ==>
      var urls := UrlsOf(UrlResults(AssetFiles(file).value));
      && o.world.meta == w.meta[id := AssetRecord(w.meta, id, FileNames(urls))]
      && (forall i :: 0 <= i < |urls| ==> AssetKey(site, FileName(urls[i])) in o.world.objects)
    ensures AssetFiles(file).Success? ==>
      var us := UrlResults(AssetFiles(file).value);
      forall i :: 0 <= i < FilesUploaded(site, us) ==> AssetKey(site, FileName(us[i].value)) in o.world.objects
  {
    match AssetFiles(file)
    case Failure(e) => Outcome(w, Some(e.what))
    case Success(files) =>
      var us := UrlResults(files);
      var (objects, error) := UploadFiles(w.objects, site, us);
      if error.Some? then Outcome(World(w.meta, objects), error)
      else
        var names := FileNames(UrlsOf(us));
        if names == {} then Outcome(World(w.meta, objects), Some("an empty string set cannot be stored"))
        else Outcome(World(w.meta[id := AssetRecord(w.meta, id, names)], objects), None)
  }

  /** The bucket after `publishAsset`: unchanged when the files cannot be
      listed; otherwise the objects of `UploadFilesStores`, whether or not a
      later step failed or the record update was refused. */
  lemma PublishAssetStores(w: World, site: Site, id: Id, file: Option<Value>)
    ensures AssetFiles(file).Failure? ==> PublishAsset(w, site, id, file).world.objects == w.objects
    ensures AssetFiles(file).Success? ==>
      var r := PublishAsset(w, site, id, file).world.objects;
      var ups := UploadedUrls(site, UrlResults(AssetFiles(file).value));
      && r.Keys == w.objects.Keys + UploadKeys(site, ups)
      && (forall k :: k in w.objects && k !in UploadKeys(site, ups) ==> r[k] == w.objects[k])
      && (forall i :: 0 <= i < |ups| && LastUpload(site, ups, i) ==>
            r[AssetKey(site, FileName(ups[i]))] == site.download(ups[i]).value)
  {
    PublishAssetObjects(w, site, id, file);
    if AssetFiles(file).Success? {
      UploadFilesStores(w.objects, site, UrlResults(AssetFiles(file).value));
    }
  }

  lemma PublishAssetObjects(w: World, site: Site, id: Id, file: Option<Value>)
    ensures PublishAsset(w, site, id, file).world.objects ==
      if AssetFiles(file).Failure? then w.objects
      else UploadFiles(w.objects, site, UrlResults(AssetFiles(file).value)).0
  {
  }

  /** `SET FileNames` on the asset's record, created when missing. */
  function AssetRecord(m: Meta, id: Id, names: set<string>): (r: Record)
    ensures r.fileNames == Some(names)
    ensures id in m ==> r == m[id].(fileNames := Some(names))
    ensures id !in m ==> r.usedEntryIds.None? && r.pageEntryIds.None? && r.publishPath.None?
  {
    var rec := if id in m then m[id] else NoRecord;
    rec.(fileNames := Some(names))
  }

  // --------------------------------------------------------- unpublishAsset

  /** `unpublishAsset`: the asset's record is deleted and each listed file is
      removed from the bucket; a record without `FileNames` throws at the
      property read inside the store callback, after the deletion. */
  function UnpublishAsset(w: World, site: Site, id: Id): (o: Outcome)
    ensures o.world.meta == w.meta - {id}
    ensures o.error.Some? <==> id in w.meta && w.meta[id].fileNames.None?
    ensures o.crashed <==> o.error.Some?
    ensures o.crashed ==> o.world.objects == w.objects
    ensures o.error.None? ==>
      var names := if id in w.meta then w.meta[id].fileNames.value else {};
      o.world.objects == w.objects - (set n | n in names :: AssetKey(site, n))
  {
    var m := w.meta - {id};
    if id !in w.meta then Outcome(World(m, w.objects), None)
    else if w.meta[id].fileNames.None? then
      Outcome(World(m, w.objects), Some("cannot read property SS of undefined"), true)
    else
      var names := w.meta[id].fileNames.value;
      Outcome(World(m, w.objects - (set n | n in names :: AssetKey(site, n))), None)
  }

  /** Asset events leave the page/entry links alone when the asset's id is
      not also a page's or an entry's. */
  lemma PublishAssetKeepsConsistent(w: World, site: Site, id: Id, file: Option<Value>)
    requires Consistent(w.meta)
    ensures Consistent(PublishAsset(w, site, id, file).world.meta)
  {
    var o := PublishAsset(w, site, id, file);
    if o.error.None? {
      var m := o.world.meta;
      forall p, e ensures e in UsedIds(m, p) <==> p in PageIds(m, e) {
        FileNamesKeepLinks(w.meta, id, m[id], p);
        FileNamesKeepLinks(w.meta, id, m[id], e);
      }
    }
  }

  /** Replacing a record by one that differs only in `FileNames` leaves
      every page's and entry's links as they were. */
  lemma FileNamesKeepLinks(m: Meta, id: Id, r: Record, q: Id)
    requires id in m ==> r == m[id].(fileNames := r.fileNames)
    requires id !in m ==> r.usedEntryIds.None? && r.pageEntryIds.None?
    ensures UsedIds(m[id := r], q) == UsedIds(m, q)
    ensures PageIds(m[id := r], q) == PageIds(m, q)
  {
    if q == id {
      if id in m {
        assert r.usedEntryIds == m[id].usedEntryIds;
        assert r.pageEntryIds == m[id].pageEntryIds;
      }
    } else {
      assert q in m ==> m[id := r][q] == m[q];
    }
  }

  lemma UnpublishAssetKeepsConsistent(w: World, site: Site, id: Id)
    requires Consistent(w.meta)
    requires UsedIds(w.meta, id) == {} && PageIds(w.meta, id) == {}
    ensures Consistent(UnpublishAsset(w, site, id).world.meta)
  {
    var m := UnpublishAsset(w, site, id).world.meta;
    assert forall q :: UsedIds(m, q) == UsedIds(w.meta, q);
    assert forall e :: PageIds(m, e) == PageIds(w.meta, e);
  }

  // ---------------------------------------------------------------- handler

  /** The parts of an event payload the handlers read: `sys.id`,
      `sys.contentType.sys.id` and `fields.file`. */
  datatype EventPayload = EventPayload(id: Id, contentType: Option<Id>, file: Option<Value>)

  /** A queue record: its body did not parse to an object, or it names an
      event and carries a payload (absent when `payload.sys` is missing). */
  datatype Message = Unparsable | Message(event: string, payload: Option<EventPayload>)

  /** The handler for a known event name, or `None` for an unknown one. */
  function Dispatch(w: World, site: Site, event: string, payload: Option<EventPayload>): (o: Option<Outcome>)
    ensures o.None? <==> event !in {"ContentManagement.Entry.publish", "ContentManagement.Entry.unpublish",
                                    "ContentManagement.Asset.publish", "ContentManagement.Asset.unpublish"}
    ensures o.Some? && payload.None? ==> o.value == Outcome(w, Some("cannot read property id of undefined"))
  {
    if event == "ContentManagement.Entry.publish" then
      Some(if payload.None? || payload.value.contentType.None? then Outcome(w, Some("cannot read property id of undefined"))
           else PublishEntry(w, site, payload.value.id, payload.value.contentType.value))
    else if event == "ContentManagement.Entry.unpublish" then
      Some(if payload.None? || payload.value.contentType.None? then Outcome(w, Some("cannot read property id of undefined"))
           else UnpublishEntry(w, site, payload.value.id, payload.value.contentType.value))
    else if event == "ContentManagement.Asset.publish" then
      Some(if payload.None? then Outcome(w, Some("cannot read property id of undefined"))
           else PublishAsset(w, site, payload.value.id, payload.value.file))
    else if event == "ContentManagement.Asset.unpublish" then
      Some(if payload.None? then Outcome(w, Some("cannot read property id of undefined"))
           else UnpublishAsset(w, site, payload.value.id))
    else None
  }

  /** What a run of records leaves: the world, the reported failures, and
      the error that ended the invocation, if one was thrown uncaught. */
  datatype RunResult = RunResult(world: World, reports: seq<string>, crash: Option<string>)

  /** One record: an unknown event is skipped silently, a known one runs on
      the world its predecessors left and its failure is reported, unless it
      was thrown uncaught, which ends the invocation unreported. Whether a
      record that does not parse is reported is `reportParseErrors`. */
  function HandleOne(w: World, site: Site, msg: Message, reportParseErrors: bool): (r: RunResult)
    ensures msg.Unparsable? ==>
      r.world == w && r.crash.None? && (|r.reports| == 1 <==> reportParseErrors) && |r.reports| <= 1
    ensures msg.Message? && Dispatch(w, site, msg.event, msg.payload).None? ==> r == RunResult(w, [], None)
    ensures msg.Message? && Dispatch(w, site, msg.event, msg.payload).Some? ==>
      var o := Dispatch(w, site, msg.event, msg.payload).value;
      && r.world == o.world
      && (o.crashed ==> r.reports == [] && r.crash == o.error)
      && (!o.crashed ==> r.crash.None?)
      && (!o.crashed && o.error.None? ==> r.reports == [])
      && (!o.crashed && o.error.Some? ==> r.reports == ["Error processing publish event: " + o.error.value])
  {
    match msg
    case Unparsable =>
      RunResult(w, if reportParseErrors then ["Error processing publish event: unparsable record"] else [], None)
    case Message(event, payload) =>
      match Dispatch(w, site, event, payload)
      case None => RunResult(w, [], None)
      case Some(o) =>
        if o.crashed then RunResult(o.world, [], o.error)
        else RunResult(o.world, if o.error.Some? then ["Error processing publish event: " + o.error.value] else [], None)
  }

  /** The records of one invocation, each started once its predecessor's
      chain settles; an uncaught error ends the invocation there. */
  function Run(w: World, site: Site, msgs: seq<Message>, reportParseErrors: bool): RunResult
    decreases |msgs|
  {
    if |msgs| == 0 then RunResult(w, [], None)
    else
      var first := HandleOne(w, site, msgs[0], reportParseErrors);
      if first.crash.Some? then first
      else
        var rest := Run(first.world, site, msgs[1..], reportParseErrors);
        RunResult(rest.world, first.reports + rest.reports, rest.crash)
  }

  /** `handler` as written: the `catch` for a record that does not parse
      attaches a handler to the earlier chain, whose own failures are already
      handled, so the parse failure is never reported. */
  function HandlerAsWritten(w: World, site: Site, msgs: seq<Message>): RunResult {
    Run(w, site, msgs, false)
  }

  /** `handler` with every failure reported, the parse failure included. */
  function Handler(w: World, site: Site, msgs: seq<Message>): (r: RunResult)
    ensures r.world == HandlerAsWritten(w, site, msgs).world
    ensures r.crash == HandlerAsWritten(w, site, msgs).crash
  {
    SameWorld(w, site, msgs);
    Run(w, site, msgs, true)
  }

  /** Whether parse failures are reported has no effect on the world, nor on
      how the invocation ends. */
  lemma {:induction false} SameWorld(w: World, site: Site, msgs: seq<Message>)
    ensures Run(w, site, msgs, true).world == Run(w, site, msgs, false).world
    ensures Run(w, site, msgs, true).crash == Run(w, site, msgs, false).crash
    decreases |msgs|
  {
    if |msgs| > 0 {
      SameWorld(HandleOne(w, site, msgs[0], true).world, site, msgs[1..]);
    }
  }

  /** A record whose body does not parse goes unreported as written. */
  lemma ParseFailureUnreported(w: World, site: Site)
    ensures HandlerAsWritten(w, site, [Unparsable]) == RunResult(w, [], None)
    ensures Handler(w, site, [Unparsable]) == RunResult(w, ["Error processing publish event: unparsable record"], None)
  {
    var msgs := [Unparsable];
    assert msgs[1..] == [];
    var none: seq<string> := [];
    assert none + none == none;
    assert ["Error processing publish event: unparsable record"] + none == ["Error processing publish event: unparsable record"];
  }

  /** Sequencing: a batch is its first part followed by the rest, run on the
      world the first part left, with the reports concatenated; so a reported
      failure never stops the records after it. An uncaught error in the
      first part ends the invocation before the rest. */
  lemma {:induction false} RunSplits(w: World, site: Site, a: seq<Message>, b: seq<Message>, rep: bool)
    ensures var ra := Run(w, site, a, rep);
      Run(w, site, a + b, rep) ==
        if ra.crash.Some? then ra
        else RunResult(Run(ra.world, site, b, rep).world, ra.reports + Run(ra.world, site, b, rep).reports,
                       Run(ra.world, site, b, rep).crash)
    decreases |a|
  {
    if |a| == 0 {
      assert a + b == b;
      var none: seq<string> := [];
      assert none + Run(w, site, b, rep).reports == Run(w, site, b, rep).reports;
    } else {
      var ab := a + b;
      assert ab[0] == a[0];
      assert ab[1..] == a[1..] + b;
      var h := HandleOne(w, site, a[0], rep);
      if h.crash.None? {
        RunSplits(h.world, site, a[1..], b, rep);
        var ra := Run(h.world, site, a[1..], rep);
        if ra.crash.None? {
          var rb := Run(ra.world, site, b, rep);
          assert Run(w, site, ab, rep) == RunResult(rb.world, h.reports + (ra.reports + rb.reports), rb.crash);
          assert Run(w, site, a, rep) == RunResult(ra.world, h.reports + ra.reports, None);
          AppendAssoc(h.reports, ra.reports, rb.reports);
        }
      }
    }
  }

  /** A record that ends the invocation: an asset unpublished while its
      record lacks `FileNames` stops every record after it, reports nothing,
      and leaves the record deleted. */
  lemma CrashStopsLaterRecords(w: World, site: Site, id: Id, rest: seq<Message>, rep: bool)
    requires id in w.meta && w.meta[id].fileNames.None?
    ensures var msg := Message("ContentManagement.Asset.unpublish", Some(EventPayload(id, None, None)));
      Run(w, site, [msg] + rest, rep) == RunResult(World(w.meta - {id}, w.objects), [], Some("cannot read property SS of undefined"))
  {
    var msg := Message("ContentManagement.Asset.unpublish", Some(EventPayload(id, None, None)));
    assert ([msg] + rest)[0] == msg;
  }

  /** Records with unknown event names change nothing and report nothing. */
  lemma {:induction false} UnknownEventsSkipped(w: World, site: Site, msgs: seq<Message>, rep: bool)
    requires forall i :: 0 <= i < |msgs| ==> msgs[i].Message? && Dispatch(w, site, msgs[i].event, msgs[i].payload).None?
    ensures Run(w, site, msgs, rep) == RunResult(w, [], None)
    decreases |msgs|
  {
    if |msgs| > 0 {
      UnknownEventsSkipped(w, site, msgs[1..], rep);
      var none: seq<string> := [];
      assert none + none == none;
    }
  }
}
