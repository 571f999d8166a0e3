# bcjh-bot topics and themes, modelled in Dafny

This project models the keyword store of the bcjh-bot chat bot and the
topic command that drives it. It is written in Dafny and its properties are
proved.

Topics and themes are keyword → content entries. Each kind is kept in a
database table. Reads go through a cache that every kind shares:

- `<kind>_keywords` holds the keyword list;
- `<kind>_data_<keyword>` holds one row.

Every write goes to the store first and then deletes cache keys.

The topic command handler does four things:

- it splits `add*keyword*content`, `update*keyword*content` and
  `delete*keyword` commands;
- it answers any other message by keyword search: an exact keyword wins,
  otherwise every keyword containing the query is listed;
- before storing a topic, it rewrites the inline image directives
  `[CQ:image,…,url=…]` of the content;
- the rewrite downloads each image to `images/topics/<keyword>_<time>_<i>.png`
  and points the directive at the served copy.

Files:

- `strs.dfy`: the Go string functions the code relies on (`Index`,
  `Replace`, `ReplaceAll`, `Split`, `Join`, `Trim`, `TrimSpace`, `%d`).
- `records.dfy`: the rows and the cache keys.
- `cache.dfy`: the cache-aside helper, under the contract the store relies on.
- `pattern.dfy`: the `%` search pattern.
- `store.dfy`: one `Store` class for both kinds. Its fields are the rows and
  the shared cache, and its methods follow the data-access functions. The
  ghost predicates `Coherent()` (no cached value is stale) and `Backed()`
  (every cached row is of a stored keyword) are what the mutations preserve.
- `scenarios.dfy`: two runs across operations.
- `media.dfy`: the image-directive rewriter.
- `commands.dfy`: the command handler.

Store and cache failures, the download and the clock are parameters:

- `loadOk`, `readOk`, `insertOk`, `writeOk` say whether a store call succeeds;
- `failing` is the set of keywords whose row cannot be read;
- `compiles` says whether a search pattern compiles;
- `download(url, path)` says whether a download succeeds;
- `clock(i)` is the time read while handling directive `i`.

The model follows the code, with one exception: the `$` in a keyword,
listed under "## Findings", where the message pipeline uses the corrected
replacement. Three behaviours of the code worth knowing:

- the save path is built with `filepath.Join`, which cleans it, so paths are
  `images/topics/<file>` and not `./images/topics/<file>`;
- a read of an absent keyword is not an error: it yields the zero row, and
  that row is cached;
- an update leaves a column unchanged when the new value for it is empty.

## Model

| member | source | states |
|---|---|---|
| Records.ListKeyIsNoDataKey | dao/topic.go:13-14 | the list key of a kind is never the data key of any keyword of any kind |
| Records.DataKeyInjective | dao/theme.go:13-14 | two data keys are equal iff their kinds and keywords are |
| Records.OwnersDisjoint | dao/theme.go:13-14 | no cache key belongs to both the topic and the theme kind |
| Records.KeysOwned | dao/topic.go:13-14 | both keys of a kind start with that kind's prefix |
| CacheAside.Cache.FindWithCache | dao/topic.go:19-31 | a hit returns the cached value and skips the loader; a miss returns the loader's result and caches it only on success |
| CacheAside.Cache.Delete | dao/topic.go:105 | removes exactly one key |
| Pattern.MatchesIff | dao/topic.go:66-67 | the translated query matches a keyword iff some slice of the keyword matches it whole (an unanchored search) |
| Pattern.PrefixMatchIff | dao/topic.go:66-67 | a prefix match is a whole match of some prefix |
| Pattern.LiteralMatchesIsContains | dao/topic.go:66-67 | a query without `%` matches exactly the keywords that contain it |
| Pattern.PercentMatchesEverything | dao/topic.go:66 | `%` alone matches every keyword |
| KeywordStore.KeywordsAppend | dao/topic.go:96-100 | appending a row appends its keyword to the keyword column |
| KeywordStore.CreateThenExists | dao/topic.go:89-107 | after a create is done, a second create of the same keyword with a list that loads is refused as existing (or invalid for an empty value) and inserts nothing |
| KeywordStore.CreateUnlistedOnFailedLoad | dao/topic.go:51-55 | when the list is not cached and cannot be loaded, `HasTopicKeyword` answers false, so a create of a keyword the store already holds is done and adds a second row for it |
| KeywordStore.MatchingAppend | dao/topic.go:96-100 | an appended row adds one to the count of rows with its keyword, and none to others |
| KeywordStore.EntryForAppend | dao/topic.go:96-100 | after an insert, a read finds the old row of a listed keyword and the new row of the new one |
| KeywordStore.EntryForUpdated | dao/topic.go:117-121 | after an update, a read of the keyword finds the new value (and the new image unless it is empty); other keywords read as before |
| KeywordStore.KeywordsUpdated | dao/topic.go:117-121 | an update leaves the keyword column unchanged |
| KeywordStore.EntryForWithout | dao/topic.go:142 | after a delete the keyword is no longer listed and reads as the zero row; other keywords read as before |
| KeywordStore.FoundCoherent | dao/topic.go:75-84 | over a coherent cache, the search result is the store rows of the matching keywords, in order, minus those neither cached nor readable |
| KeywordStore.FoundInStoreMembers | dao/topic.go:75-84 | a row is in the store search result iff it belongs to a listed, matching, readable keyword |
| KeywordStore.AfterLookupKeepsReads | dao/topic.go:78-81 | reading one keyword during a search does not change what any later read of the search returns |
| KeywordStore.CoherenceIsLocal | dao/theme.go:13-14 | the coherence and backing of one kind do not depend on cache keys of the other kind |
| KeywordStore.ListReadKeeps | dao/topic.go:17-33 | loading the list through the cache keeps coherence and backing, and touches no key of another kind |
| KeywordStore.RowReadKeeps | dao/topic.go:36-47 | reading a row through the cache keeps coherence, and keeps backing for a stored keyword |
| KeywordStore.SearchKeeps | dao/topic.go:75-84 | the reads of a search keep coherence and backing, and touch no other kind |
| KeywordStore.CreateKeeps | dao/topic.go:96-105 | inserting a row and dropping only the list key keeps coherence when every cached row is of a stored keyword |
| KeywordStore.UpdateKeeps | dao/topic.go:117-130 | updating rows and dropping the list and data keys keeps coherence and backing |
| KeywordStore.DeleteKeeps | dao/topic.go:142-151 | deleting rows and dropping the list and data keys keeps coherence and backing |
| KeywordStore.DropOwnKeys | dao/topic.go:129-130 | dropping a kind's own keys leaves the other kind's keys alone |
| KeywordStore.Store.KeywordColumn | dao/topic.go:20-30 | the loader collects the keyword column in store order, or fails when the store read fails |
| KeywordStore.Store.LoadKeywords | dao/topic.go:17-33 | returns the cached list or the loaded column, caches a successful load, and under coherence returns the store's keywords |
| KeywordStore.Store.GetByKeyword | dao/topic.go:36-47 | returns the cached row or the store's row (the zero row when absent), caches a successful read, and under coherence returns the store's row |
| KeywordStore.Store.HasKeyword | dao/topic.go:50-62 | true iff the keyword is in the loaded list, false when loading fails; under coherence, listed implies stored, and with the list cached listed iff stored |
| KeywordStore.Store.ReadMatching | dao/topic.go:75-84 | the search loop returns the rows of matching keywords in list order, skipping failed reads |
| KeywordStore.Store.Search | dao/topic.go:65-86 | a pattern that does not compile fails before the list is loaded; a failed list load fails; otherwise over a coherent cache the result is the store rows of the matching, readable keywords in list order |
| KeywordStore.Store.Create | dao/topic.go:89-107 | the outcome, rows and cache are `CreateEffect` of the old state: empty keyword or value: refused, nothing changed; a listed keyword: refused, nothing inserted; insert failure: error, no cache key dropped; success: exactly one row appended and only the list key dropped; coherence and backing kept |
| KeywordStore.Store.Update | dao/topic.go:110-132 | the outcome, rows and cache are `UpdateEffect` of the old state: empty keyword or value: refused, nothing changed; unlisted, write failure or no row affected: error, rows unchanged, no key dropped; success: the rows updated and exactly the list and data keys dropped; coherence kept, and under coherence "no row affected" cannot happen |
| KeywordStore.Store.Delete | dao/topic.go:135-153 | the outcome, rows and cache are `DeleteEffect` of the old state: empty keyword: refused, nothing changed; unlisted, write failure or no row affected: error, rows unchanged, no key dropped; success: the keyword's rows deleted and exactly the list and data keys dropped; coherence kept |
| KeywordStore.Store.WriteUpdate | dao/topic.go:117-130 | the successful update write: rows updated, exactly the list and data keys of the keyword dropped, other kinds' keys untouched, coherence and backing kept |
| KeywordStore.Store.WriteDelete | dao/topic.go:142-151 | the successful delete write: the keyword's rows removed, exactly the list and data keys dropped, other kinds' keys untouched, coherence and backing kept |
| Media.ExpandDropsGroup | messageservice/topic.go:188 | a `$` followed by a name that is not a group number, and then a non-name character, expands to nothing, so the keyword's tail after `$` disappears from the directive |
| Scenarios.StaleAfterCreate | dao/topic.go:36-47 | reading an absent keyword caches the zero row; a successful create of that keyword leaves it cached, so the next read still gives the zero row and the cache is no longer coherent |
| Scenarios.ThemeWritesKeepTopics | dao/theme.go:107-148 | a theme update and delete on the shared cache leave the topic rows and every topic cache entry as they were, and a coherent topic cache coherent |
| Media.Blocks | messageservice/topic.go:154-155 | every directive found is the opening, non-empty params without `]`, then `]` |
| Media.BlocksNoneIff | messageservice/topic.go:154-158 | the search from a position finds no directive exactly when the directive pattern matches at no position from there on |
| Media.BlocksFirst | messageservice/topic.go:154-155 | the first directive found from a position is the leftmost match, with no match before it; the rest are what the search finds after its end, so the directives occur in the content in order and without overlap |
| Media.NoOpenNoBlocks | messageservice/topic.go:154-158 | content without the directive opening has no directive |
| Media.FindUrlLeftmost | messageservice/topic.go:165-166 | the URL match is the leftmost place `url=` is followed by a non-comma, its value runs to the next comma, and there is no match only when the pattern matches nowhere |
| Media.UrlRemoval | messageservice/topic.go:185 | removing the first occurrence of the matched text removes exactly the URL match |
| Media.DecodeAmpPlain | messageservice/topic.go:170 | a URL without `&amp;` is handed to the download as it is |
| Media.DecodeAmpStep | messageservice/topic.go:170 | the first `&amp;` becomes `&` and the decoding goes on after it, so every escape in a URL is undone, left to right |
| Media.CollapseCommas | messageservice/topic.go:194 | the result has no two commas in a row, is empty iff the input is, and keeps the first character |
| Media.CollapseKeepsText | messageservice/topic.go:194 | collapsing commas keeps every non-comma character in order |
| Media.CollapseIdle | messageservice/topic.go:194 | text without `,,` passes through the collapse unchanged |
| Media.CollapseShrink | messageservice/topic.go:194 | a run `,,` collapses exactly as a single `,` does; with `Media.CollapseIdle` this pins the collapse to replacing every `,{2,}` by `,` |
| Media.TidyShrink | messageservice/topic.go:194-195 | the tidy-up treats `,,` anywhere as one comma, so fields separated by a comma run stay separated |
| Media.Tidy | messageservice/topic.go:194-195 | the tidied params have no `,,` and no comma at either end |
| Media.TidyKeeps | messageservice/topic.go:194-195 | a comma-free piece survives the tidy-up |
| Media.RewriteParams | messageservice/topic.go:185-195 | the rewritten params have no `,,` and no comma at either end |
| Media.RewriteNamesFile | messageservice/topic.go:186-191 | when the served address has no comma, the rewritten params contain `file=<served address>` |
| Media.TidyIdle | messageservice/topic.go:194-195 | params with no `,,` and no comma at either end pass through the tidy-up unchanged |
| Media.RewriteParamsExact | messageservice/topic.go:185-195 | when the params without the URL are a match-free head ending at a comma, one `file=<v>` parameter and a match-free tail starting at a comma, the result is exactly that text with `<v>` replaced by the served address, then tidied |
| Media.RewriteParamsLone | messageservice/topic.go:185-195 | when only `file=<v>` remains besides the URL, the rewritten params are exactly `file=<served address>` |
| Media.RewriteParamsMiddle | messageservice/topic.go:185-195 | when the URL sat between `file=<v>` and a tidy, file-free rest, the `,,` it leaves becomes one comma: the result is exactly `file=<served address>,<rest>` |
| Media.ExampleMiddle | messageservice/topic.go:185-195 | `file=x,url=y,sub=1` is rewritten to `file=<served address>,sub=1` |
| Media.ReplaceFilesNone | messageservice/topic.go:187-191 | without a file parameter, replacing file parameters changes nothing |
| Media.SavePathPlain | messageservice/topic.go:175 | the save path of a plain file name is `images/topics/<name>` |
| Media.FileNameIndex | messageservice/topic.go:174 | two file names of one keyword are equal only for the same directive index |
| Media.SavePathIndex | messageservice/topic.go:174-175 | for a keyword without `/`, two save paths are equal only for the same directive index |
| Media.ProcessImages | messageservice/topic.go:153-207 | returns what `Process` describes (unchanged content without directives, the download error, or the rewritten content and joined paths), and asks for exactly the downloads of the run |
| Media.PlanAsWritten | messageservice/topic.go:174-195 | for a keyword without `$`, each directive's rewritten text is exactly what the template expansion of line 188 produces |
| Media.RewriteBlocks | messageservice/topic.go:163-204 | the loop ends in the state of the run over all directives: the rewritten content, the paths, the downloads asked for, and whether one failed |
| Media.RunStaysFailed | messageservice/topic.go:176-178 | after a failed download no later directive is handled |
| Media.RunTrace | messageservice/topic.go:163-204 | the loop fails iff some download fails; until then it asks for every request in order and records every save path; on failure it has asked for the requests up to the first failing one, and no later one |
| Media.RequestIndex | messageservice/topic.go:163-179 | every download a run asks for is the download of some earlier directive, and names it |
| Media.PlansPaths | messageservice/topic.go:174-175 | the save path of each directive names its own index |
| Media.PlansDistinctPaths | messageservice/topic.go:174-175 | for a keyword without `/`, no two directives of a message save to the same path |
| Media.RequestPathsDistinct | messageservice/topic.go:176-179 | when no two directives save to the same path, no two downloads of a run do, so no saved image overwrites another |
| Media.ProcessFails | messageservice/topic.go:176-178 | processing fails iff the download of some directive fails |
| Media.ProcessPaths | messageservice/topic.go:179-206 | on success the paths are the save paths of the directives with a URL, in order, joined by `;` |
| Media.ProcessPathsSplit | messageservice/topic.go:206 | for a keyword without `/` or `;` and at least one download, the joined paths split back into the save paths, and no two are equal |
| Media.NoDirectiveUnchanged | messageservice/topic.go:154-158 | content without a directive comes back unchanged, with no paths |
| Media.NoUrlUnchanged | messageservice/topic.go:163-169 | when no directive has a URL, nothing is downloaded and the content comes back unchanged, with no paths |
| Media.AsWrittenAgrees | messageservice/topic.go:188 | when the served address has no `$`, the code's template replacement equals literal replacement |
| Media.DollarInKeyword | messageservice/topic.go:174-188 | for keyword `a$b`, the image is saved as `a$b_1_0.png`; the intended directive names that file; the code's directive names `a.png` |
| Commands.ParseNeedsStars | messageservice/topic.go:39-43 | an add or update command is refused iff it has fewer than two `*`, a delete command iff it has none |
| Commands.ParseEntryFields | messageservice/topic.go:39-45 | keyword and content are the trimmed second and third fields, and anything after a third `*` is ignored |
| Commands.ParseKeywordField | messageservice/topic.go:102-107 | the keyword is the trimmed second field, and anything after a second `*` is ignored |
| Commands.ContainingIff | messageservice/topic.go:125-128 | a keyword is listed iff it contains the query |
| Commands.ContainingAppend | messageservice/topic.go:125-128 | the listing keeps keyword-list order |
| Commands.CandidatesIff | messageservice/topic.go:123-133 | a query that is a keyword lists only itself; otherwise exactly the keywords containing it are listed |
| Commands.MatchKeywords | messageservice/topic.go:123-133 | the search loop returns the query alone when it is a keyword, otherwise the keywords containing it in list order |
| Commands.Query | messageservice/topic.go:116-150 | a failed list load or row read gives the error note; otherwise the answer is no match, the list to choose from, or the content of the single match; under coherence that content is the store's; only topic cache keys change, and coherence and backing are kept |
| Commands.Add | messageservice/topic.go:39-61 | short arguments and failed downloads reach no store call and change nothing; otherwise the reply carries the outcome of creating the topic with the rewritten content and the joined save paths, and the rows and cache are what that create leaves (`CreateEffect`: refused, exists, system error, or appended) |
| Commands.Change | messageservice/topic.go:71-93 | short arguments and failed downloads reach no store call and change nothing; otherwise the reply carries the outcome of updating the topic with the rewritten content and the joined save paths, and the rows and cache are what that update leaves (`UpdateEffect`); backing of the cache is kept, and coherence too |
| Commands.Remove | messageservice/topic.go:102-112 | short arguments reach no store call and change nothing; otherwise the reply carries the outcome of deleting the keyword, and the rows and cache are what that delete leaves (`DeleteEffect`); backing of the cache is kept, and coherence too |

## Left out

- Go's general `regexp` for user search queries: a query is modelled as literal characters plus `%`. Whether it compiles is the `compiles` parameter.
- The fixed directive, URL, file and comma patterns are written as scanners over `string`. A character is a Unicode code point, not a byte.
- `downloadImage` (HTTP and file writing) is the `download` parameter. `time.Now().UnixNano()` is the `clock` parameter, and `init`'s directory creation is left out.
- The database and the cache are fields. Their failures are the boolean parameters. The check-then-insert race between the list lookup and the insert, and all other concurrency, is not modelled.
- Store ids and the created/updated timestamps are not modelled.
- The cache helper `SimpleFindDataWithCache` and the `Cache` object are not part of this model. `CacheAside.Cache` states the contract relied on from them: no expiry, and values keyed by string.
- The reply texts, `c.Reply`, logging, the permission check `IsSuperAdmin`, and the prefix dispatch `util.HasPrefixIn` are not part of this model. The three command branches are modelled as separate methods.
- Media.Expand: a reference name is taken to be ASCII letters, digits and `_`. Go also accepts other Unicode letters and digits.
- Media.ProcessImages: it rewrites each directive with the corrected literal replacement `RewriteParams`, not with line 188's template expansion. The two agree for keywords without `$` (`Media.PlanAsWritten`); for other keywords the code's directive is the one `Media.DollarInKeyword` exhibits.
- Media.Plan: plans each directive's rewrite with the literal replacement `RewriteParams`, not line 188's template expansion; the same for keywords without `$` (`Media.PlanAsWritten`).
- Media.RewriteBlocks: rewrites with the planned `RewriteParams` text, so for a keyword with `$` it does not produce the code's directive (`Media.DollarInKeyword`).
- Commands.Add: the content it stores is the literal-replacement rewrite, which for a keyword with `$` differs from the code's (`Media.DollarInKeyword`).
- Commands.Change: as `Commands.Add`, the stored content is the literal-replacement rewrite.
- Media.ProcessImages: the model does not show that the replacement of directive `i` lands on directive `i`. An earlier rewrite could in principle produce a copy of a later directive's text.
- Commands.Query: the reply lists and error texts are not modelled, only which case is answered.

## Findings

| source | as written | input that shows it | evidently intended | confidence | as-written member | corrected member |
|---|---|---|---|---|---|---|
| messageservice/topic.go:188 | the served address goes through `ReplaceAllString`, which expands `$name` references in the replacement; the pattern has no groups, so such a reference becomes empty | keyword `a$b`, time 1, directive 0, params `file=x,url=y`: the image is saved as `images/topics/a$b_1_0.png` but the directive reads `file=http://localhost:8080/topics/a.png` | the directive names the file that was saved, `.../topics/a$b_1_0.png` (a literal replacement) | high; not executed | Media.DollarInKeyword (on Media.RewriteParamsAsWritten) | Media.RewriteParams (with Media.RewriteNamesFile and Media.AsWrittenAgrees) |
