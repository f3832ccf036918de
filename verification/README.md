# stacy, modelled in Dafny

stacy publishes a static website from content kept in the Contentful content
management system. Page entries are compiled with templates into files. When
an editor publishes or unpublishes an entry or an asset, only the affected
pages are regenerated. This project models the core of that machinery as pure
functions over immutable data and proves what the code promises about it.

Modelled parts:

- **The legacy content-event handler** (`index.js`), in two modules.
  - `Classifier` models the four event handlers:
    - they update a per-site context: the reverse-link graph `refsMap`, the
      page registry `topEntries`, the asset registry, a dirty flag and four
      accumulators;
    - `processRefsChain` walks referrer lists up to the pages that embed a
      changed entry.
  - `LegacyBatch` models the record loop. It holds the table of handled
    events, the defaults of the site configuration, and one context per site,
    created on the site's first event. Each site's events apply in arrival
    order.
- **The page compiler** (`lib/stacy-runtime.js`), module `Runtime`:
  - the lookup tables of included entries and assets (`mapLinked`);
  - the closure of a page over its Entry-links (`collectLinkedEntries`);
  - `generatePages`;
  - the `module`, `assetSrc` and `markdown` template helpers, and the
    Markdown image rewriting.
- **The incremental publisher** (`lib/publisher/index.js`), module `Publisher`:
  - the target-folder key prefix;
  - the effect of every event on the site-metadata table and on the target
    bucket;
  - the per-invocation sequencing of records.
- **The site-metadata update of the `publish` command**
  (`lib/commands/publish.js`), modules `Reconciler`, `StrOrder` and `Chains`:
  - `equalItems`, both as written and as intended;
  - the put/delete diff;
  - batches of 25 sent one after the other;
  - the single retry of unprocessed actions.
- **The page-id scan and batching of the `generate` command**
  (`lib/commands/generate.js`), module `Generator`.
- **The request handling of the `serve` command**
  (`lib/commands/serve.js`), module `Server`.

Shared modules:

- `Wrappers`: Option and Result.
- `Seqs`: sequence helpers, and `Chunk`, the batching both commands use.
- `Json`: JSON values with JavaScript truthiness and strict equality.

JavaScript `undefined` is `None`. A thrown `TypeError` is a `Failure`. The
network, the file system, the clock, templates, Markdown and the MIME table
are function parameters. The code has walks over content links that recurse
with no visited set, so a cycle in the content makes them recurse without
bound. Each such walk is modelled twice:

- a total, guarded walk, which the rest of the model uses;
- the source's own recursion, with a fuel bound, proved equal to the guarded
  walk whenever it returns (`Runtime.AsWrittenAgrees`) or whenever the graph
  is acyclic (`Classifier.ChainMatchesSourceWhenRanked`).

Where the code behaves other than its evident intent, the model keeps both
readings (see Findings), and the rest of the model uses the intended one:

- **Cycles.** Both link walks recurse with no visited set; the model's walks
  stop at entries already visited.
- **Compile errors.** In `fetchContentAndGeneratePages`, `generatePages`
  throws inside the loop over the fetched items, so the pages of the earlier
  items are still handed over and the later items are dropped
  (`Runtime.GenerateAllPages`). A template that throws ends generation the
  same way (`Runtime.Render`).
- **Metadata comparison.** `equalItems` decides on the first key alone; the
  model compares every key (`Reconciler.EqualItemsIff`).
- **Page keys and dropped entries.** The publisher's page keys omit the
  target folder, and a record whose `PageEntryIds` was emptied makes
  `publishEntry` throw; the model uses the folder-prefixed key and reads such
  a record as "no pages".
- **Uncaught errors.** A property read that throws inside a DynamoDB
  callback of `unpublishEntry` or `unpublishAsset` is outside every promise
  chain: the model ends the invocation there, unreported
  (`Publisher.CrashStopsLaterRecords`).

## Model

| member | source | states |
|---|---|---|
| LegacyBatch.TopicOf | index.js:154-159 | exactly the four Contentful topics have a handler, each its own |
| LegacyBatch.ApplyDefaults | index.js:59-68 | a falsy setting gets its default (`page` types, `slug`, `assets`, `<site>-content-meta.json`); only an undefined depth gets 3; the defaulted names are never empty |
| LegacyBatch.DefaultsIdempotent | index.js:59-68 | applying the defaults to an already defaulted configuration changes nothing |
| LegacyBatch.NewSiteState | index.js:421-456 | a new site context starts clean, with the defaulted configuration and the stored content metadata; missing metadata (`NoSuchKey`) gives empty tables, and any other load failure leaves the site failed |
| LegacyBatch.ProcessRecord | index.js:406-470 | an unhandled topic leaves all sites alone; a handled one creates the site's context if needed and changes that site only |
| LegacyBatch.ProcessBatch | index.js:613-654 | one record that does not parse fails the whole invocation; otherwise the records are processed in order |
| LegacyBatch.PerSiteArrivalOrder | index.js:459-469 | a site has a context iff it received a handled event, and its final state replays its own events in arrival order from a fresh context, whatever other sites received |
| LegacyBatch.HandleKeepsInv | index.js:161-321 | each handler keeps the regeneration list duplicate-free, one pending publish per asset and the file-name removals distinct |
| LegacyBatch.ReplayKeepsInv | index.js:459-469 | replaying any sequence of events keeps that invariant |
| LegacyBatch.BatchKeepsInv | index.js:619-622 | every active context a batch leaves behind satisfies the invariant |
| Classifier.RemoveFirstStrict | index.js:224-226 | `indexOf`/`splice` with `===` removes one occurrence of a primitive value and nothing for an object; the multiset shrinks by at most one |
| Classifier.AppendIfAbsentStrict | index.js:314-316 | the value is appended exactly when no strictly equal value is present |
| Classifier.NewSlug | index.js:176-177 | the slug is the first locale's value of the slug field; a missing field throws |
| Classifier.SetTopEntry | index.js:178-181 | the page registry takes the new slug (removed when undefined) and reports a change iff it differs by `!==`; other pages are untouched |
| Classifier.LinkTargets | index.js:185-206 | the targets are exactly the Entry-links in any locale of any field, directly or as array elements |
| Classifier.LocaleLinks | index.js:188-205 | the links of one field are those of its locales |
| Classifier.AddReferrer | index.js:192-203 | every link target lists the entry as a referrer (appended when new), no other list changes, and the dirty flag is raised iff some list grew |
| Classifier.Chain | index.js:209-229 | the walk queues only registered pages with truthy slugs, after what was queued before; it never duplicates a queued page and only removes slugs from the removal list |
| Classifier.ChainList | index.js:212 | the same guarantees for walking a referrer list |
| Classifier.ChainAgrees | index.js:209-229 | on a ranked (acyclic) graph with enough fuel, the source's unguarded recursion returns and equals the guarded walk |
| Classifier.ChainListAgrees | index.js:212 | the list form of that agreement |
| Classifier.ChainMatchesSourceWhenRanked | index.js:209-230 | on an acyclic graph, the walk from the published entry equals what the source computes |
| Classifier.SelfReferrerDiverges | index.js:209-212 | an entry that is its own referrer sends the source's recursion into unbounded depth, while the guarded walk returns at once |
| Classifier.ChainReaches | index.js:209-229 | completeness: every page at the end of a referrer chain from the entry is queued, and one occurrence of its slug leaves the removal list |
| Classifier.PublishEntryQueuesChainPages | index.js:207-229 | publishing an entry queues every page at the end of a referrer chain from the entry, in the tables the handler leaves, and takes one occurrence of its slug off the removal list |
| Classifier.ChainListReaches | index.js:212 | the same for a chain that starts at any member of a referrer list |
| Classifier.PublishEntry | index.js:161-231 | fails iff the content type, the fields or a page's slug field is missing; records the slug of a page; adds the entry as referrer of each link target; dirty iff already dirty, a list grew or the slug changed; the regeneration queue only gains pages, and slug removals only shrink |
| Classifier.UnpublishEntry | index.js:233-257 | a non-page or slugless entry changes nothing; a page leaves the registry, its slug is queued for removal, and its pending regeneration is cancelled |
| Classifier.AssetFileName | index.js:262-263 | the asset's file name is read from the first locale of `file`; a missing field or a null value throws |
| Classifier.FilterKeepsUniqueIds | index.js:275-276 | filtering the pending publishes keeps their ids unique |
| Classifier.PublishAsset | index.js:259-285 | the registry maps the asset to its file name; the asset becomes the only and last pending publish for its id; a pending removal of its file name is cancelled once; nothing else changes |
| Classifier.UnpublishAsset | index.js:287-321 | an unknown asset changes nothing; otherwise it leaves the registry, its file name is queued for removal once, and its pending publish is cancelled |
| Runtime.IndexBy | lib/stacy-runtime.js:31-33 | every element's key is in the table, and each key maps to the last element carrying it |
| Runtime.MapLinked | lib/stacy-runtime.js:27-46 | without `includes`, or one of its lists, the table is empty; otherwise every included entry and asset is found by id, the last with an id winning |
| Runtime.FieldsTargetsMembers | lib/stacy-runtime.js:182-194 | the targets are exactly the Entry-links of the fields, scalar or array element |
| Runtime.Collect | lib/stacy-runtime.js:162-197 | the traversal's result covers its work list and is closed under links, or it fails on an id that is not included |
| Runtime.CollectLinkedEntries | lib/stacy-runtime.js:162-197 | the page and everything reachable from it is collected, each collected entry being included with its links collected too; failure names a missing entry |
| Runtime.CollectWithin | lib/stacy-runtime.js:178-197 | the traversal succeeds and stays inside any closed set that covers its work |
| Runtime.CollectIsLeastClosure | lib/stacy-runtime.js:162-197 | success iff some set closed over the page's links exists, and the result is then the least such set plus the page |
| Runtime.CollectOrderIndependent | lib/stacy-runtime.js:183-193 | the collected set depends on which entries are linked, not on field order or repetition |
| Runtime.ListAsWrittenSuccess | lib/stacy-runtime.js:178-197 | when the source's recursion returns, it adds exactly the least closed set over the targets |
| Runtime.ListAsWrittenFailure | lib/stacy-runtime.js:169-173 | when the source's recursion throws, no closed set covers the targets |
| Runtime.AsWrittenAgrees | lib/stacy-runtime.js:212-214 | whenever the source's recursion returns, it agrees with the traversal, on success and on failure |
| Runtime.ListAsWrittenAgrees | lib/stacy-runtime.js:183-193 | the same agreement over any work list |
| Runtime.AsWrittenReturnsWhenRanked | lib/stacy-runtime.js:178-197 | on acyclic content, fuel above the depth bound makes the source's recursion return, with the traversal's result |
| Runtime.SelfLinkDiverges | lib/stacy-runtime.js:174-187 | an entry linking to itself makes the source recurse without bound, while the traversal returns the entry alone |
| Runtime.Extensions | lib/stacy-runtime.js:218-221 | an extension is listed iff it has a template for the content type |
| Runtime.Render | lib/stacy-runtime.js:218-232 | succeeds iff every extension's template renders; then one page per extension, each with the page id, the involved ids, `slug.ext`, the MIME type and the rendered text; otherwise the first template that throws gives the error |
| Runtime.GeneratePages | lib/stacy-runtime.js:199-240 | succeeds iff the slug is a string, the closure succeeds, some template exists and every template renders; the pages then carry `slug.ext`, the MIME type and the closure without the page itself; a render failure names an extension whose template throws, with its message |
| Runtime.FirstFailure | lib/stacy-runtime.js:75-83 | every item before the position generates, and the item at it fails |
| Runtime.GenerateAll | lib/stacy-runtime.js:75-83 | the run ends without error iff no item fails, and otherwise with the first failing item's error |
| Runtime.GenerateAllPages | lib/stacy-runtime.js:75-83 | the pages handed over are exactly those of the items before the first failing one |
| Runtime.ModuleHelper | lib/stacy-runtime.js:92-115 | falsy input renders nothing; a truthy non-Entry-link throws; a missing entry renders nothing; an included entry renders with its type's template, throws when there is none, and passes on what that template throws |
| Runtime.AssetSrc | lib/stacy-runtime.js:117-136 | succeeds iff given an included Asset link; direct mode gives the URL; otherwise `/assetsPath` followed by the URL from its last slash on, or by the whole URL when it has no slash |
| Runtime.ImageSrc | lib/stacy-runtime.js:139-148 | direct mode keeps the href; otherwise `/assetsPath/` and the href's last path segment, which holds no slash |
| Runtime.MarkdownHelper | lib/stacy-runtime.js:150-154 | only truthy content is rendered |
| Runtime.AssetSrcMatchesImage | lib/stacy-runtime.js:130-148 | for a URL with a slash, the template helper and the Markdown renderer give the same address |
| Runtime.AssetSrcWithoutSlash | lib/stacy-runtime.js:130-148 | for every URL without a slash the template helper glues the whole URL to the assets path with no separator, while the Markdown renderer puts a slash between them |
| Publisher.GetS3KeyPrefix | lib/publisher/index.js:99-101 | empty iff the folder is missing or empty; otherwise the folder and one trailing slash |
| Publisher.PageKeyInFolder | lib/commands/publish.js:113-125 | a page's key is the target-folder prefix followed by the publish path, so it lies in the folder the full-site sync writes to |
| Publisher.PageKeyMissesFolder | lib/publisher/index.js:107-109 | with a target folder, the key `publishPage` uses differs from the one the full-site sync wrote |
| Publisher.PageKeyInjective | lib/publisher/index.js:107-109 | two publish paths share a key iff they are equal |
| Publisher.PageKeyAvoidsAssets | lib/publisher/index.js:318-339 | a page whose path is outside the asset folder never gets an asset file's key |
| Publisher.AssetKeyInFolder | lib/publisher/index.js:318-339 | an asset file's key is the asset folder inside the target folder followed by the file name |
| Publisher.AssetKeyInjective | lib/publisher/index.js:318-339 | two file names share a key iff they are equal |
| Publisher.AddRef | lib/publisher/index.js:180-186 | `ADD` unions the page into the entry's `PageEntryIds`, creating the record if needed; other records are unchanged |
| Publisher.DeleteRef | lib/publisher/index.js:153-159 | `DELETE` removes the page from the entry's set, drops the attribute once empty, and creates a bare record if none existed |
| Publisher.AddRefs | lib/publisher/index.js:176-196 | updates every listed entry as one `ADD` would, and nothing else |
| Publisher.DeleteRefs | lib/publisher/index.js:149-170 | updates every listed entry as one `DELETE` would, and nothing else |
| Publisher.AddRefsStep | lib/publisher/index.js:176-196 | one more `ADD` extends the set of updated entries |
| Publisher.DeleteRefsStep | lib/publisher/index.js:149-170 | one more `DELETE` extends the set of updated entries |
| Publisher.AddEach | lib/publisher/index.js:176-196 | the loop of `ADD` calls reaches the same table whatever the order or repetition of the ids |
| Publisher.DeleteEach | lib/publisher/index.js:271-291 | the loop of `DELETE` calls likewise |
| Publisher.RecordPage | lib/publisher/index.js:123-196 | the page's record holds its involved entries and publish path |
| Publisher.RecordPageLinks | lib/publisher/index.js:123-196 | afterwards the page lists exactly its involved entries; each of them lists the page; entries it no longer uses drop it; no other page's links change |
| Publisher.PublishPage | lib/publisher/index.js:103-199 | the content is uploaded; with no involved entries the record update is refused (empty string set) and the metadata is unchanged |
| Publisher.PublishPageKeepsConsistent | lib/publisher/index.js:103-199 | publishing a page keeps the page-to-entry and entry-to-page lists mutually consistent |
| Publisher.PublishPages | lib/stacy-runtime.js:74-84 | the run ends without error iff every page has involved entries |
| Publisher.PublishPagesKeepsConsistent | lib/stacy-runtime.js:74-84 | publishing any sequence of pages keeps the lists consistent |
| Publisher.PagesOfEntryAsWritten | lib/publisher/index.js:211-226 | reading a record without `PageEntryIds` throws; otherwise the recorded pages |
| Publisher.PagesOfEntry | lib/publisher/index.js:211-226 | on a consistent table, the pages using an entry are exactly those whose record lists it |
| Publisher.DroppedEntryBreaksPublish | lib/publisher/index.js:144-223 | after a page stops using its only entry, publishing that entry throws as written, where no pages is meant |
| Publisher.PagesToRegenerate | lib/publisher/index.js:208-227 | a page entry regenerates itself; any other entry regenerates the pages recorded as using it |
| Publisher.PublishEntry | lib/publisher/index.js:201-246 | no pages changes nothing; a failed fetch changes nothing; otherwise the pages generated before any generation failure are published, and that failure is the error; without a generation failure the error is the page-publish failure, which occurs iff some page has no involved entries |
| Publisher.PublishEntryKeepsConsistent | lib/publisher/index.js:201-246 | publishing an entry keeps the lists consistent |
| Publisher.UnpublishEntry | lib/publisher/index.js:248-312 | non-pages are ignored; a page's record goes and it leaves every used entry's list; it succeeds iff the record had used ids and a path, and then the page object is deleted; a record without used ids throws uncaught right after the deletion; no other page's links change |
| Publisher.DropPageLinks | lib/publisher/index.js:257-292 | deleting a page's record and then its id from the entries it used touches no other page's links |
| Publisher.UnpublishEntryKeepsConsistent | lib/publisher/index.js:248-312 | unpublishing a page that no other page uses keeps the lists consistent |
| Publisher.FileName | lib/publisher/index.js:327 | the file name is the URL's slash-free tail, after its last slash |
| Publisher.AssetFiles | lib/publisher/index.js:322 | a `file` with a truthy URL is the only file; otherwise the files are its property values, or its elements when it is an array; a missing or null `file` throws |
| Publisher.FileUrlIff | lib/publisher/index.js:325-327 | a file yields a URL iff it is an object whose `url` is a string, and the URL is that string |
| Publisher.UploadFiles | lib/publisher/index.js:321-361 | without error iff every file has a URL and downloads; every file before the first failing step is uploaded under its asset key; nothing is removed |
| Publisher.UploadFilesStores | lib/publisher/index.js:321-361 | the bucket afterwards holds the old objects plus exactly one object per key of a file that got through, holding the download of the last such file; every other object is untouched |
| Publisher.FileNames | lib/publisher/index.js:323-328 | the names are exactly the file names of the URLs; empty iff there are no URLs |
| Publisher.PublishAssetStores | lib/publisher/index.js:314-387 | the bucket is unchanged when the files cannot be listed; otherwise it gains exactly the objects of the files before the first failing step, each with its downloaded content, and every other object is untouched |
| Publisher.PublishAsset | lib/publisher/index.js:314-387 | succeeds iff the field has files and each has a URL and downloads; the record then lists their names; the files before a failing one stay uploaded; on failure the metadata is unchanged; never ends the invocation |
| Publisher.AssetRecord | lib/publisher/index.js:367-373 | `SET FileNames` replaces only that attribute, creating the record if needed |
| Publisher.UnpublishAsset | lib/publisher/index.js:389-440 | the record is deleted; a record without `FileNames` throws uncaught and nothing else happens; otherwise every listed file is deleted |
| Publisher.PublishAssetKeepsConsistent | lib/publisher/index.js:314-387 | asset publishing keeps the page/entry lists consistent |
| Publisher.FileNamesKeepLinks | lib/publisher/index.js:367-373 | replacing `FileNames` leaves every page's and entry's lists as they were |
| Publisher.UnpublishAssetKeepsConsistent | lib/publisher/index.js:389-440 | unpublishing an asset that is not a page or entry keeps the lists consistent |
| Publisher.Dispatch | lib/publisher/index.js:449-479 | exactly the four Contentful event names run a handler; a missing payload fails that record |
| Publisher.HandleOne | lib/publisher/index.js:442-489 | an unknown event is skipped silently; a known one runs on the world its predecessors left; its failure is reported once, unless it was thrown uncaught, which ends the invocation unreported |
| Publisher.Handler | lib/publisher/index.js:442-493 | reporting parse failures leaves the world, and how the invocation ends, exactly as the handler as written leaves them |
| Publisher.SameWorld | lib/publisher/index.js:485-489 | whether parse failures are reported has no effect on the stores or on an uncaught error |
| Publisher.ParseFailureUnreported | lib/publisher/index.js:485-489 | a record that does not parse is never reported as written; the corrected handler reports it |
| Publisher.RunSplits | lib/publisher/index.js:442-492 | each record starts once its predecessor settles: a reported failure never stops the records after it, and an uncaught error in a first part ends the invocation before the rest |
| Publisher.CrashStopsLaterRecords | lib/publisher/index.js:404-410 | unpublishing an asset whose record lacks `FileNames` deletes the record, reports nothing and stops every later record |
| Publisher.UnknownEventsSkipped | lib/publisher/index.js:476-479 | records with unknown events change nothing and report nothing |
| Reconciler.ObjectView | lib/commands/publish.js:294-300 | an object is seen as its properties, an array as one property per index |
| Reconciler.ListsEqualIffPermutation | lib/commands/publish.js:308-318 | after sorting, two string arrays compare equal iff they are permutations |
| Reconciler.EqualItemsReflexive | lib/commands/publish.js:292-330 | under the intended comparison every well-formed item equals itself |
| Reconciler.EqualValuesReflexive | lib/commands/publish.js:298-328 | every well-formed value equals itself |
| Reconciler.ListValuesIffPermutation | lib/commands/publish.js:304-318 | two string-set values compare equal iff they hold the same strings in any order |
| Reconciler.OnlyFirstKeyCompared | lib/commands/publish.js:298-329 | as written, items differing after their first key compare equal; under the intended comparison they do not |
| Reconciler.EqualItemsIff | lib/commands/publish.js:292-330 | the intended comparison holds iff the items have as many keys and every key of the first is present in the second with an equal value |
| Reconciler.ItemKey | lib/commands/publish.js:416 | an item's key is `Id.S`; reading it from an item without `Id` throws |
| Reconciler.IndexOld | lib/commands/publish.js:414-417 | succeeds iff every old item has an id; the map is the table the old items describe |
| Reconciler.KeysOf | lib/commands/publish.js:419-422 | the ids of the new items are the keys of the table they describe |
| Reconciler.Puts | lib/commands/publish.js:419-430 | succeeds iff every new item has an id; only new items are put; the old ids left are those no new item has |
| Reconciler.Deletes | lib/commands/publish.js:431-439 | only deletes are queued for the leftover ids |
| Reconciler.Diff | lib/commands/publish.js:413-439 | succeeds iff all items have ids; all puts precede all deletes; only new items are put |
| Reconciler.PutsConverge | lib/commands/publish.js:419-430 | applying the puts gives each new id its new item, unless it was already there and compared equal |
| Reconciler.PutsLast | lib/commands/publish.js:419-430 | the last new item either overwrites its id or was already there and compared equal |
| Reconciler.DiffConverges | lib/commands/publish.js:413-439 | applying a successful diff to the old table converges it on the new items, up to the comparison |
| Reconciler.PutsIdle | lib/commands/publish.js:419-430 | against a table already holding the items, and with a comparison that finds each item equal to itself, no put is queued |
| Reconciler.DiffIdle | lib/commands/publish.js:413-442 | once the table holds the new items, a second diff queues nothing |
| Reconciler.DiffIdleEqualItems | lib/commands/publish.js:413-442 | the same holds for the intended comparison |
| Reconciler.StaleRecordKept | lib/commands/publish.js:423 | as written, a page record whose used entries changed is not rewritten; the intended comparison rewrites it |
| Reconciler.SinglePageDiff | lib/commands/publish.js:419-430 | one stored page against its successor: a put iff the comparison says they differ |
| Reconciler.Push | lib/commands/publish.js:440-463 | no actions means no call; otherwise the first round sends the actions in batches of 25, then exactly the unprocessed ones are retried once, and anything left after that is an error |
| Reconciler.UpdateMetadata | lib/commands/publish.js:409-465 | an item without an id fails before any call; otherwise the diff's actions are pushed |
| Reconciler.AllProcessedNoRetry | lib/commands/publish.js:444-455 | a store that processes everything is called once per batch, with no retry and no error |
| Reconciler.SilentRound | lib/commands/publish.js:269-290 | such a store answers every batch of a round with nothing unprocessed |
| Reconciler.NothingProcessedFails | lib/commands/publish.js:444-462 | a store that processes nothing gets every batch twice, and the update fails |
| Reconciler.EchoRound | lib/commands/publish.js:269-290 | such a store returns the whole action list as unprocessed |
| Seqs.Chunk | lib/commands/publish.js:271-280 | the batches concatenate to the input; all but the last are full; none is empty unless the input is; an empty input gives one empty batch |
| Seqs.SplitBatches | lib/commands/generate.js:104-113 | the source's batching loop computes exactly `Chunk` |
| Chains.SendAll | lib/commands/publish.js:281-289 | every request is sent and the answers are concatenated in order, or the chain stops right after the first failed request with its error |
| Chains.SentPrefix | lib/commands/publish.js:281-289 | the requests made are a prefix of the list, non-empty when the list is, and all of it on success |
| StrOrder.BelowTotal | lib/commands/publish.js:311-312 | the string order used by `sort()` is total |
| StrOrder.BelowReflexive | lib/commands/publish.js:311-312 | the string order is reflexive |
| StrOrder.BelowAntisymmetric | lib/commands/publish.js:311-312 | the string order is antisymmetric |
| StrOrder.BelowTransitive | lib/commands/publish.js:311-312 | the string order is transitive |
| StrOrder.Insert | lib/commands/publish.js:311-312 | inserting into a sorted list keeps it sorted and adds the element once |
| StrOrder.SortStrings | lib/commands/publish.js:311-312 | the result is sorted and a permutation of the input |
| StrOrder.SortedUnique | lib/commands/publish.js:311-312 | two sorted permutations of each other are identical |
| StrOrder.SortEqIffPermutation | lib/commands/publish.js:311-318 | two lists sort to the same list iff they are permutations |
| Generator.ScanItems | lib/commands/generate.js:78-91 | the scan succeeds iff every entry has a string slug not seen before; it then adds all slugs and appends the ids in order; it fails only on a missing or duplicate slug |
| Generator.ScanTypesSucceeds | lib/commands/generate.js:74-94 | the scan over all page types succeeds iff every query does and the whole listing has distinct fresh slugs |
| Generator.ScanTypesIds | lib/commands/generate.js:74-94 | a successful scan collects the ids in type order, then item order |
| Generator.CollectPageIdsCorrect | lib/commands/generate.js:64-95 | collecting page ids succeeds iff the queries succeed and the slugs are distinct strings; the ids are the listing's, in order |
| Generator.GenerateSite | lib/commands/generate.js:98-130 | a scan error generates nothing; no pages generates nothing; otherwise non-empty batches of at most 5 ids go out in order, covering all ids on success |
| Generator.SharedSlugGeneratesNothing | lib/commands/generate.js:85-88 | two pages sharing a slug keep the command from generating anything |
| Server.ErrorResponse | lib/commands/serve.js:11-20 | a plain-text response with the status and the body `STATUS_TEXT\n\nmessage` |
| Server.Extension | lib/commands/serve.js:107-112 | an extension exists iff some dot after position 0 has no slash after it; the extension is the text after the last dot, with no dot or slash |
| Server.SlugExtensionRoundTrip | lib/commands/serve.js:164 | `/slug.ext` with a clean extension yields that slug and extension back |
| Server.UrlFromSlugAndExtension | lib/commands/serve.js:164 | a URL with an extension is its first character, the slug, a dot and the extension |
| Server.FirstAnswered | lib/commands/serve.js:176-184 | the page types before the position find nothing, and the one at it answers |
| Server.FindPage | lib/commands/serve.js:176-198 | the first page type whose query finds something gives the page (its first item), a failed query rejects, and no answer at all means no page |
| Server.LaterTypesUnused | lib/commands/serve.js:176-184 | page types after the first answered one are never consulted |
| Server.Utf8Length | lib/commands/serve.js:224 | the byte length lies between one and four bytes per character |
| Server.ServePage | lib/commands/serve.js:142-238 | a page request ends in 200, 404 or 500; a 200 has a known extension and its MIME type; HEAD sends no body |
| Server.PageRendered | lib/commands/serve.js:210-238 | once the page and its template are found, the answer is 200 with the rendered text iff the template renders, and otherwise 500 with the thrown error |
| Server.Handle | lib/commands/serve.js:94-238 | any verb but GET or HEAD gets 405 with `Allow: GET, HEAD`; the status is 200, 404, 405 or 500; only the 405 carries `Allow` |
| Server.HeadMatchesGet | lib/commands/serve.js:103-229 | HEAD gets GET's status and content type, no body, and the length of the body GET would send |
| Server.HandleRendersPage | lib/commands/serve.js:94-238 | a GET or HEAD with no static file behind it answers 200 with the rendered text iff the page's template renders, and otherwise 500 with the thrown error |
| Server.PageHeadMatchesGet | lib/commands/serve.js:222-229 | the same for a rendered page |
| Server.RootIsIndex | lib/commands/serve.js:106 | `/` is served exactly as `/index.html` |
| Server.PageStatusIgnoresUrl | lib/commands/serve.js:150-206 | the URL as requested only appears in messages, never in status or content type |
| Server.StaticFileWins | lib/commands/serve.js:116-139 | a static file is served with 200 whatever the content store holds |
| Json.Get | lib/stacy-runtime.js:206 | a property is found iff some property has that name, and its value is that property's |
| Json.Member | index.js:263-268 | reading a member of undefined or null throws, and a member is found only on an object |
| Json.ItemsEntryLinks | lib/stacy-runtime.js:185-189 | the targets are exactly the Entry-links among the elements |
| Json.FieldEntryLinks | lib/stacy-runtime.js:164-168 | an array field contributes its Entry-link elements, any other value itself when it is a link |
| Json.LastIndexOf | lib/commands/serve.js:107 | the last position of the character, or -1 when it does not occur |
| Json.SubstringFrom | lib/stacy-runtime.js:134 | `substring` with a negative start counts from 0 |

## Left out

- All calls to S3, DynamoDB, SNS, HTTPS and the Contentful API are left out. They become parameters (`fetch`, `download`, the query and store functions) or are assumed to succeed. The store's answer is a parameter.
- `reportError` and its SNS notification are left out. A reported failure is an entry in the returned message list.
- Handlebars, marked and mime are left out. Templates, the Markdown converter and the content-type table are function parameters.
- The registration side of `configureTemplatesEngine` and the caching of Contentful clients and compiled templates are left out. They are plumbing around the modelled helpers.
- The content query built in `fetchContentAndGeneratePages` (`sys.id` versus `sys.id[in]`, the limit, the include depth) is left out. The query is the `fetch` parameter.
- The `richText` helper is left out. It is an unimplemented stub.
- The concurrent site tasks of the legacy handler (`startSiteTasks` and the tasks it starts) are left out. They are concurrency and I/O; the model stops at the per-site contexts they consume.
- The deployment steps of the `publish` command are left out: the interactive prompt, disabling and re-enabling the event source, the bucket sync, and the Lambda update. The five-second wait before the retry is also left out, because time is not modelled.
- The HTTP server, response streaming and the template watcher of `serve` are left out, along with the directory and static-file copying of `generate` and the writing of generated files.
- `cli.js`, `build-publisher.js`, `new.js` and `common.js` are outside this model.
- Runtime.CollectAsWritten: stack depth is modelled as a fuel bound, and `None` stands for running out of it. The real stack overflow is not modelled.
- Classifier.ChainAsWritten: the same fuel bound stands for unbounded recursion.
- The page compiler's entries arrive with locales resolved, as the delivery API returns them. The legacy handler's per-locale maps are modelled in `Classifier`.
- Publisher.UnpublishEntryKeepsConsistent: it requires that no other page uses the unpublished page as an entry. Deleting the record also deletes that page's `PageEntryIds`, so consistency then fails in the code too.
- Publisher.UnpublishAssetKeepsConsistent: it requires that the asset's id is not also a page or an entry. The same deletion would otherwise drop their links.
- Publisher.PublishPage: a store update never fails. Only the empty string set that DynamoDB rejects is modelled as an error.
- Server.Utf8Length: it states bounds, not the exact byte count. Characters are code points, not UTF-16 code units.
- StrOrder.SortStrings: it orders by character code, as `sort()` orders strings of the Basic Multilingual Plane. Surrogate pairs are not modelled.
- Reconciler.ItemKey: a non-string `S` becomes its JavaScript property-name form. The item value type has no `null`, so the throw on a null `Id` is not modelled.
- Publisher.PublishPage: it writes the page under `Publisher.PageKey`, the folder-prefixed key of the Findings table; the code as written uses the bare publish path (`Publisher.PageKeyAsWritten`).
- Publisher.UnpublishEntry: it deletes the page object at `Publisher.PageKey`, the folder-prefixed key, where the code as written deletes the bare publish path.
- Publisher.PagesToRegenerate: it reads the pages of an entry with `Publisher.PagesOfEntry`, which takes a record without `PageEntryIds` as no pages; as written that read throws inside the DynamoDB callback (`Publisher.PagesOfEntryAsWritten`).
- Publisher.PublishEntry: it uses the corrected page lookup above. When generation throws, the pages generated before it sit on a chain nobody awaits: the code publishes them while later records run, or not at all if the invocation ends first; the model publishes them before the next record.
- Publisher.RunSplits: the strict record order it states holds for the awaited chains only; the unawaited publishes of a failed generation are not modelled as concurrent.
- The queue's redelivery of a batch whose invocation ended with an uncaught error is left out; delivery happens outside the handler.
- LegacyBatch.TopicOf: a topic that names a member of `Object.prototype` (`constructor`, `toString`, ...) finds an inherited function in the handler table; topics are taken to be plain event names.
- Events are taken to carry `sys.id`: the payload types of both handlers always hold an id, so a payload without one cannot be expressed.
- Runtime.TemplateFor: the template bag lists each extension once, as the keys of the source's bag object do; with a repeated extension it would use the first entry while `Runtime.Extensions` listed the extension twice.
- Classifier.PublishEntry: an entry id that names a member of `Object.prototype` finds an inherited value in the referrer and slug tables; entry ids are taken to be plain Contentful ids. The same holds for `Classifier.UnpublishEntry` and the referrer walk.
- LegacyBatch.ProcessRecord: a site named after a member of `Object.prototype` finds an inherited value in the context table; site names are taken to be plain names.

## Findings

| source | as written | input that shows it | evidently intended | confidence | as-written member | corrected member |
|---|---|---|---|---|---|---|
| lib/commands/publish.js:298-329 | `equalItems` returns from inside its loop after comparing the first key, so later keys are never compared | old page record `{Id: a, UsedEntryIds: [x]}`, new `{Id: a, UsedEntryIds: [y]}`: they compare equal and the stale record is kept | every key compared, arrays as sets | not executed; high | Reconciler.StaleRecordKept | Reconciler.EqualItems |
| lib/publisher/index.js:107-109 | `publishPage` and `unpublishEntry` use the publish path as the object key, without the target-folder prefix that assets and the full-site sync use | target folder `blog`, page `index.html`: the publisher writes `index.html`, while the sync wrote `blog/index.html` | page keys inside the target folder | not executed; medium | Publisher.PageKeyMissesFolder | Publisher.PageKey |
| lib/publisher/index.js:223 | `data.Item.PageEntryIds.SS` is read from a record whose `PageEntryIds` a `DELETE` emptied, and DynamoDB then drops the attribute | page P uses M, then is republished using N only; publishing M then throws | a record without pages means no pages | not executed; high | Publisher.DroppedEntryBreaksPublish | Publisher.PagesOfEntry |
| lib/publisher/index.js:485-489 | the `catch` for an unparsable record attaches a handler to a chain that never rejects | a record whose body is not JSON: nothing is reported | the parse failure reported like any other | not executed; high | Publisher.ParseFailureUnreported | Publisher.Handler |
| lib/stacy-runtime.js:174-193 | `collectLinkedEntries` recurses into every link with no visited check | an included entry whose field links to itself: unbounded recursion | a traversal that stops at visited entries | not executed; medium | Runtime.SelfLinkDiverges | Runtime.CollectIsLeastClosure |
| index.js:209-212 | `processRefsChain` follows referrer lists with no guard | an entry that links to itself is its own referrer: unbounded recursion | propagation that stops on a cycle | not executed; medium | Classifier.SelfReferrerDiverges | Classifier.ChainReaches |
