/** The record loop of the legacy handler (`processKinesisRecord` in
    `index.js`): dispatch by topic through the table of handled events, one
    context per site created on the site's first handled event, and each
    site's events applied to that context in arrival order. A failure while
    loading the site or applying an event leaves the site failed, and its
    later events are skipped, as the rejected promise chain does. */
module LegacyBatch {
  import opened Wrappers
  import opened Seqs
  import opened Json
  import opened Classifier

  datatype Topic = EntryPublish | EntryUnpublish | AssetPublish | AssetUnpublish

  /** The table of handled events. */
  function TopicOf(name: string): (t: Option<Topic>)
    ensures t == Some(EntryPublish) <==> name == "ContentManagement.Entry.publish"
    ensures t == Some(EntryUnpublish) <==> name == "ContentManagement.Entry.unpublish"
    ensures t == Some(AssetPublish) <==> name == "ContentManagement.Asset.publish"
    ensures t == Some(AssetUnpublish) <==> name == "ContentManagement.Asset.unpublish"
  {
    if name == "ContentManagement.Entry.publish" then Some(EntryPublish)
    else if name == "ContentManagement.Entry.unpublish" then Some(EntryUnpublish)
    else if name == "ContentManagement.Asset.publish" then Some(AssetPublish)
    else if name == "ContentManagement.Asset.unpublish" then Some(AssetUnpublish)
    else None
  }

  /** Runs the handler of a topic. Unpublish events only read the id. */
  function Handle(t: Topic, ctx: Ctx, payload: Payload): Result<Ctx, TypeError> {
    match t
    case EntryPublish => PublishEntry(ctx, payload)
    case EntryUnpublish => Success(UnpublishEntry(ctx, payload.id))
    case AssetPublish => PublishAsset(ctx, payload)
    case AssetUnpublish => Success(UnpublishAsset(ctx, payload.id))
  }

  /** The site configuration as stored, before defaults are filled in. */
  datatype RawConfig = RawConfig(
    pageContentTypes: Option<seq<string>>,
    pageSlugFieldName: Option<string>,
    assetsFolder: Option<string>,
    maxDepth: Option<int>,
    contentMetaS3Key: Option<string>)

  /** A string setting that JavaScript considers set (present and non-empty). */
  predicate IsSet(s: Option<string>) {
    s.Some? && s.value != ""
  }

  /** The defaults `loadSiteConfig` fills in: missing or empty string settings
      get their default, a missing list gets `["page"]` (an empty list is kept,
      arrays being truthy), and only a missing depth gets 3. */
  function ApplyDefaults(site: string, raw: RawConfig): (c: SiteConfig)
    ensures raw.pageContentTypes.Some? ==> c.pageContentTypes == raw.pageContentTypes.value
    ensures raw.pageContentTypes.None? ==> c.pageContentTypes == ["page"]
    ensures c.pageSlugFieldName == if IsSet(raw.pageSlugFieldName) then raw.pageSlugFieldName.value else "slug"
    ensures c.assetsFolder == if IsSet(raw.assetsFolder) then raw.assetsFolder.value else "assets"
    ensures c.maxDepth == raw.maxDepth.GetOr(3)
    ensures c.contentMetaS3Key ==
      if IsSet(raw.contentMetaS3Key) then raw.contentMetaS3Key.value else site + "-content-meta.json"
    ensures c.pageSlugFieldName != "" && c.assetsFolder != "" && c.contentMetaS3Key != ""
  {
    SiteConfig(
      raw.pageContentTypes.GetOr(["page"]),
      if IsSet(raw.pageSlugFieldName) then raw.pageSlugFieldName.value else "slug",
      if IsSet(raw.assetsFolder) then raw.assetsFolder.value else "assets",
      raw.maxDepth.GetOr(3),
      if IsSet(raw.contentMetaS3Key) then raw.contentMetaS3Key.value else site + "-content-meta.json")
  }

  /** A configuration that already carries every setting. */
  function AsRaw(c: SiteConfig): RawConfig {
    RawConfig(Some(c.pageContentTypes), Some(c.pageSlugFieldName), Some(c.assetsFolder),
              Some(c.maxDepth), Some(c.contentMetaS3Key))
  }

  /** Filling in defaults twice changes nothing. */
  lemma DefaultsIdempotent(site: string, raw: RawConfig)
    ensures ApplyDefaults(site, AsRaw(ApplyDefaults(site, raw))) == ApplyDefaults(site, raw)
  {
  }

  /** The outcome of reading the stored reference graph. */
  datatype MetaLoad = Found(meta: ContentMeta) | NoSuchKey | LoadFailed(message: string)

  /** The storage reads a new site context needs. */
  datatype Loader = Loader(
    config: string -> Result<RawConfig, string>,
    meta: (string, SiteConfig) -> MetaLoad)

  datatype SiteState = Active(ctx: Ctx) | Failed(reason: string)

  function EmptyMeta(): ContentMeta {
    ContentMeta(map[], map[], map[])
  }

  /** The context a site starts a batch with: configuration with defaults, the
      stored graph (or an empty one when none is stored), clean flag and empty
      accumulators. */
  function NewSiteState(site: string, loader: Loader): (st: SiteState)
    ensures st.Active? <==>
      && loader.config(site).Success?
      && !loader.meta(site, ApplyDefaults(site, loader.config(site).value)).LoadFailed?
    ensures st.Active? ==>
      && st.ctx.site == site
      && st.ctx.config == ApplyDefaults(site, loader.config(site).value)
      && !st.ctx.dirty
      && st.ctx.regen == [] && st.ctx.slugsToRemove == []
      && st.ctx.assetsToPublish == [] && st.ctx.fileNamesToRemove == []
      && st.ctx.meta == match loader.meta(site, st.ctx.config)
                          case Found(m) => m
                          case _ => EmptyMeta()
  {
    match loader.config(site)
    case Failure(e) => Failed(e)
    case Success(raw) =>
      var config := ApplyDefaults(site, raw);
      match loader.meta(site, config)
      case LoadFailed(e) => Failed(e)
      case Found(m) => Active(Ctx(site, config, m, false, [], [], [], []))
      case NoSuchKey => Active(Ctx(site, config, EmptyMeta(), false, [], [], [], []))
  }

  /** One event applied to a site: a failed site stays failed. */
  function Step(st: SiteState, t: Topic, p: Payload): SiteState {
    match st
    case Failed(_) => st
    case Active(ctx) =>
      match Handle(t, ctx, p)
      case Success(c) => Active(c)
      case Failure(e) => Failed(e.what)
  }

  datatype Event = Event(site: string, topic: string, payload: Payload)

  /** `processKinesisRecord`: an unhandled topic is skipped before any context
      is created; otherwise the site's context (created on first use) takes
      the event. */
  function ProcessRecord(sites: map<string, SiteState>, loader: Loader, ev: Event): (r: map<string, SiteState>)
    ensures TopicOf(ev.topic).None? ==> r == sites
    ensures TopicOf(ev.topic).Some? ==>
      && r.Keys == sites.Keys + {ev.site}
      && (forall s :: s in sites && s != ev.site ==> r[s] == sites[s])
      && r[ev.site] == Step(if ev.site in sites then sites[ev.site] else NewSiteState(ev.site, loader),
                            TopicOf(ev.topic).value, ev.payload)
  {
    match TopicOf(ev.topic)
    case None => sites
    case Some(t) =>
      var st := if ev.site in sites then sites[ev.site] else NewSiteState(ev.site, loader);
      sites[ev.site := Step(st, t, ev.payload)]
  }

  /** The records of one invocation, in stream order. */
  function ProcessRecords(loader: Loader, evs: seq<Event>): map<string, SiteState> {
    if |evs| == 0 then map[]
    else ProcessRecord(ProcessRecords(loader, evs[..|evs| - 1]), loader, evs[|evs| - 1])
  }

  /** A stream whose every record parsed; one unparsable record makes the
      whole invocation fail before any site task starts. */
  function ProcessBatch(loader: Loader, records: seq<Option<Event>>): (r: Result<map<string, SiteState>, string>)
    ensures r.Failure? <==> exists i :: 0 <= i < |records| && records[i].None?
    ensures r.Success? ==> r.value == ProcessRecords(loader, seq(|records|, i requires 0 <= i < |records| => records[i].value))
  {
    if exists i :: 0 <= i < |records| && records[i].None? then Failure("unparsable record")
    else Success(ProcessRecords(loader, seq(|records|, i requires 0 <= i < |records| => records[i].value)))
  }

  /** The handled events of one site, in arrival order. */
  function SiteEvents(evs: seq<Event>, site: string): seq<(Topic, Payload)> {
    if |evs| == 0 then []
    else
      var ev := evs[|evs| - 1];
      var front := SiteEvents(evs[..|evs| - 1], site);
      if ev.site == site && TopicOf(ev.topic).Some? then front + [(TopicOf(ev.topic).value, ev.payload)]
      else front
  }

  /** A site's events applied one after the other. */
  function Replay(st: SiteState, es: seq<(Topic, Payload)>): SiteState {
    if |es| == 0 then st
    else
      var (t, p) := es[|es| - 1];
      Step(Replay(st, es[..|es| - 1]), t, p)
  }

  /** Per-site serialization: a site has a context exactly when it received a
      handled event, and its final state is its own events replayed, in
      arrival order, on the freshly loaded context; other sites' events do
      not interfere. */
  lemma {:induction false} PerSiteArrivalOrder(loader: Loader, evs: seq<Event>, site: string)
    ensures site in ProcessRecords(loader, evs) <==> |SiteEvents(evs, site)| > 0
    ensures |SiteEvents(evs, site)| > 0 ==>
      ProcessRecords(loader, evs)[site] == Replay(NewSiteState(site, loader), SiteEvents(evs, site))
  {
    if |evs| > 0 {
      var front := evs[..|evs| - 1];
      var ev := evs[|evs| - 1];
      PerSiteArrivalOrder(loader, front, site);
      var es := SiteEvents(front, site);
      if ev.site == site && TopicOf(ev.topic).Some? {
        var es' := es + [(TopicOf(ev.topic).value, ev.payload)];
        assert es'[..|es'| - 1] == es;
        if |es| == 0 {
          assert Replay(NewSiteState(site, loader), es) == NewSiteState(site, loader);
        }
      }
    }
  }

  /** The shape every context keeps during a batch: no page queued twice, at
      most one pending publish per asset, no file name queued twice. */
  ghost predicate Inv(ctx: Ctx) {
    && NoDup(ctx.regen)
    && UniqueIds(ctx.assetsToPublish)
    && StrictDistinct(ctx.fileNamesToRemove)
  }

  lemma HandleKeepsInv(t: Topic, ctx: Ctx, p: Payload)
    requires Inv(ctx)
    ensures Handle(t, ctx, p).Success? ==> Inv(Handle(t, ctx, p).value)
  {
  }

  lemma {:induction false} ReplayKeepsInv(st: SiteState, es: seq<(Topic, Payload)>)
    requires st.Active? ==> Inv(st.ctx)
    ensures Replay(st, es).Active? ==> Inv(Replay(st, es).ctx)
  {
    if |es| > 0 {
      ReplayKeepsInv(st, es[..|es| - 1]);
      var prev := Replay(st, es[..|es| - 1]);
      if prev.Active? {
        HandleKeepsInv(es[|es| - 1].0, prev.ctx, es[|es| - 1].1);
      }
    }
  }

  /** Every context a batch leaves behind is well-formed. */
  lemma BatchKeepsInv(loader: Loader, evs: seq<Event>, site: string)
    requires site in ProcessRecords(loader, evs)
    requires ProcessRecords(loader, evs)[site].Active?
    ensures Inv(ProcessRecords(loader, evs)[site].ctx)
  {
    PerSiteArrivalOrder(loader, evs, site);
    ReplayKeepsInv(NewSiteState(site, loader), SiteEvents(evs, site));
  }
}
