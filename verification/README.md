# A verified model of an ad-blocking engine

The engine decides, for every request of a page, whether some filter of a large list matches it. It
does so with hand-written data structures: an open-addressing hash table, a sorted multimap, a token
index, interned domain lists, fused filters and a cache of compiled regexes. All of them are there
for speed, and all of them are meant to answer as a plain scan of the list would. This project models
those structures in Dafny and proves that they do, or under which condition they do.

`dafny verify dfyconfig.toml` checks everything.

## What is modelled

| module | subject |
|---|---|
| `Positions` | picking elements of a list by their positions |
| `Probing`, `HashIndex` | triangular probing modulo a power of two, the hash table with growth and rehashing, its read-only view |
| `FlatMultiMap`, `FlatMap` | sorted columns searched by bisection, and their iterator |
| `Tokenizer`, `FilterTokens`, `TokenMeaning`, `TokenSoundness`, `TokenGaps` | the tokens of a URL and of a filter, the 256-slot buffer, why a matching filter's tokens are tokens of the URL, and where they are not |
| `Interning` | domain hashes replaced by indices, and the map rebuilt on loading |
| `RegexManagement`, `RegexRuns` | the regex cache as a state machine and as a class, and its state read off the events |
| `Matching`, `MatchMeaning` | pattern, host name and option checks, over stored filters and over plain ones, and what they come to |
| `Optimizer` | partitioning, grouping and fusion of filters, and exactly what that changes |
| `TokenChoice`, `FilterList`, `IndexedScan` | token choice, buckets, lookup; the index against the scan |
| `Blocker`, `VerdictMeaning`, `RedirectNames`, `ImportantRules` | sorting rules into lists, the verdict, the choice of a redirect; the verdict by the flags of the rules; what an important rule with a tag changes |
| `UrlParser`, `UrlFixedPoint`, `UrlGrammar`, `OriginalUrl` | the URL parser, its fixed point, which texts parse to what, and what it keeps of its input |
| `RequestBuilding`, `RequestMeaning` | the request made from two URLs |
| `RemoveParam`, `RemoveParamRules` | rewriting a query, and doing so by the rules that the index finds |
| `Resources`, `StackWalk`, `AliasWalks`, `Scriptlets` | the resource store with aliases, the dependency walk, the same with a stack, when it ends, and the scriptlets of a page |
| `ScriptletArgs`, `ScriptletGrammar`, `JsonEscape` | the argument parser, how arguments may be written, and the JSON string escaper |
| `CosmeticRules`, `ClassRules`, `CosmeticCache`, `PageMeaning` | cosmetic rules, their tables, the answer for a page and the one for classes and ids, and both by the fields of the rules |
| `Prelude`, `Text`, `Network` | shared vocabulary: options, hashes, text search, filters and requests |

Code that changes things step by step is modelled by classes and loops, each proved against a
function or a relation; the properties are proved about those. Hashing is an arbitrary function that
is passed in: no result needs it to be free of collisions. A stored filter is named by a location, as
in the serialized data, and the regex library is a pair of arbitrary functions.

The functions that the loops are proved against follow the code. Modules whose names end in `Meaning` or
`Grammar`, and `RegexRuns`, `StackWalk` and `Positions`, say once more what these functions come to, in
terms of positions in a text, flags and fields of a rule, or events, and do not follow the code.

## Where the code is right, and where it is not

In these places the code does not always do what one would expect; each has an exact condition or a
failing input.

* **Growing hands out the wrong slot.** `insert` computes the slot before the table grows and uses it
  afterwards (`hash_index.rs:144-162`). The table's contents are right; the reference returned is the
  key's exactly when the key was present, or the table does not grow, or rehashing happens to leave the
  key where it was: three things that can be read off the table before the call
  (`HashIndex.PushUnder`, `HashIndex.OwnerExactly`). `HashIndex.GrowthReturnsForeignSlot` and
  `HashIndex.LosesItem` give, for every capacity from four on, a run of insertions from the empty table
  that ends in a lost item. The tables that suffer are those behind `hidden_class_id_selectors`: its
  answers are the intended ones exactly when no push of a selector lost its slot
  (`ClassRules.AnswersMeantExactlyWhen`), and three selectors can be enough to lose one
  (`ClassRules.ThirdPushIsLost`).
* **Host names are looked for in one place, and their end in another.** Only the first occurrence of a
  filter's host name in the host is tried, and inside the host the end of the label is looked for at
  `filter_hostname.len()` instead of `match_index + filter_hostname.len()`
  (`network_matchers.rs:44-69`). Compared with "the name stands in whole labels somewhere in the host",
  `Matching.AnchoringAtTheEdges` and `Matching.AnchoringInside` say exactly when the code is right, with
  and without wildcard. "ads" is anchored in "cdn.adserver.com", and is not in "b.ads.com" nor in
  "adserver.ads".
* **Host name tokens** need not be tokens of the URL, because a name can be anchored within a label.
  `TokenGaps.HostnameTokensInHosts` says for which names they always are;
  `TokenGaps.HostnameTokenMissing` is a failing input.
* **The first token of an unanchored pattern** is kept, though the URL need not hold it as a token.
  `TokenGaps.UnanchoredFirstToken` says for which plain patterns every web request's URL does. The filter
  `ads/banner$script` and a request for "http://b/myads/banner" are a failing pair
  (`TokenGaps.UnanchoredTokenMissing`).
* **Fusion drops tags and spreads failure.** The group key leaves out the tag, so a fused filter has the
  tag of its first member; and one pattern that does not compile makes the fused filter match nothing,
  unless some member matches everything anyway. `Optimizer.FusionMeans` is what a fused filter matches,
  for every group; `Optimizer.FusionIsRightExactlyWhen` and `Optimizer.FusedTagIsRightExactlyWhen` are
  the exact conditions for one group, `Optimizer.OptimizingIsRightExactlyWhen` for one bucket, and
  `IndexedScan.IndexIsScanExactlyWhen` for the whole index.
  `Optimizer.SecondTagIsLost` and `Optimizer.GoodRuleIsSilenced` are two pairs of rules that optimizing
  changes.
* **A failed dependency walk** leaves a partly extended list behind, and a later walk takes the names on
  it for complete. `Resources.WalkFollowsFreePaths` states, for every list, what a walk then finds;
  `Resources.WalkClosesExactlyWhen` when a walk that succeeds leaves a closed list;
  `Scriptlets.AttemptClosesExactlyWhen` the same for a scriptlet rule.
  `Resources.FailedWalkPoisonsTheList` is a failing run. From a closed list the walk is the closure
  (`Resources.WalkIsClosure`), and a page whose scriptlets all have what they need ends with exactly
  what they need (`Scriptlets.RequiredIsClosure`). A dependency that is an alias, which the
  documentation forbids, can make the walk run for ever: if nothing in reach is missing or forbidden, it
  ends exactly when no alias in reach leads back to itself over aliases alone
  (`AliasWalks.WalkEndsExactlyWhen`).
* **Removing parameters twice** removes more only when the query is gone and the fragment has a
  '?' and a named parameter of its own (`RemoveParam.RewritingTwice`), as in "http://a/?x=1#?x=1"
  (`RemoveParam.SecondTimeRemovesMore`).
* **White space after the last closing quote** of scriptlet arguments makes the whole text malformed:
  it is skipped before a comma, but not at the end (`resource_storage.rs:633-645`).
  `ScriptletGrammar.ParsesExactlyWhen` says which texts parse, and to which arguments;
  `ScriptletArgs.BlankAfterLastQuote` is the failing family. Without quotes such white space is trimmed.
* **An important rule with a tag** is meant to be asked for with no tags at all, so that it never
  applies. Without optimization it changes no verdict. With optimization, which is the default, it may be
  fused with other important rules: the exact condition is
  `ImportantRules.TaggedImportantIsIdleExactlyWhen`. Put before an untagged rule of its mask it takes that
  rule down (`ImportantRules.TaggedRuleTakesAnotherDown`); put after one it applies as if it had no tag
  (`ImportantRules.TaggedRuleAppliesUntagged`).

The idle bound of the regex cache holds up to the time between the two clock readings at creation,
which `RegexManagement.IdleBound` carries as `skew`; it is exact when both read the same instant.

## Model

| member | source | states |
|---|---|---|
| Probing.MaskIsMod | src/flatbuffers/containers/hash_index.rs:46-54 | masking by size minus one is the remainder, for every power of two |
| Probing.OffsetsDiffer | src/flatbuffers/containers/hash_index.rs:46-54 | two triangular numbers with indices below 2^k never differ by a multiple of 2^k |
| Probing.ProbesAreDistinct | src/flatbuffers/containers/hash_index.rs:41-57 | the first `table_size` slots visited are pairwise different, for every hash |
| Probing.ProbesCoverTable | src/flatbuffers/containers/hash_index.rs:41-57 | every slot of the table is visited within `table_size` steps |
| Probing.FindSlot | src/flatbuffers/containers/hash_index.rs:41-57 | the loop ends whenever some slot satisfies the probe, at the earliest such slot in probe order |
| HashIndex.StoreBinds | src/flatbuffers/containers/hash_index.rs:144-162 | writing where the probe for a key stopped binds that key and leaves every other binding reachable |
| HashIndex.OccupiedCount | src/flatbuffers/containers/hash_index.rs:97-105 | the number of occupied slots is the number of bindings |
| HashIndex.HashIndexBuilder.Insert | src/flatbuffers/containers/hash_index.rs:144-162 | the new map is the old one with the key bound, and the new arrays exactly, with or without growth; the returned slot is the key's place in the table before growth |
| HashIndex.HashIndexBuilder.GetOrInsert | src/flatbuffers/containers/hash_index.rs:168-177 | nothing changes for a bound key and its slot is returned; otherwise as insertion, arrays included |
| HashIndex.HashIndexBuilder.MaybeIncreaseCapacity | src/flatbuffers/containers/hash_index.rs:179-200 | at most half full afterwards, same bindings, doubled exactly when more than half full |
| HashIndex.HashIndexBuilder.MoveAll | src/flatbuffers/containers/hash_index.rs:185-199 | the rehashing loop ends and the new table represents the same map |
| HashIndex.GetSingle | src/flatbuffers/containers/hash_index.rs:83-92 | the probe ends and returns the bound value, or nothing for an absent key |
| HashIndex.BuildTable | src/flatbuffers/containers/hash_index.rs:144-205 | after any sequence of insertions the arrays represent exactly the map it stands for, at most half full, and a grown table is more than a quarter full |
| HashIndex.PushUnder | src/cosmetic_filter_cache_builder.rs:119-122 | the pushed item is filed under its key exactly when, before the call, the key is present, or the table has room, or the rehashed arrays hold the key in the slot it had; into a free slot it is lost |
| HashIndex.OwnerExactly | src/flatbuffers/containers/hash_index.rs:144-162 | the same condition for the key that the returned slot holds after the call |
| HashIndex.GrowthReturnsForeignSlot | src/flatbuffers/containers/hash_index.rs:156-161 | at every capacity from four on there is a run of insertions from the empty table, and a key whose insertion then returns a free slot |
| HashIndex.LosesItem | src/cosmetic_filter_cache_builder.rs:119-122 | that run on the builder ends with the key bound to nothing, the pushed item lost |
| FlatMultiMap.StableSortIsStable | src/flatbuffers/containers/flat_multimap.rs:111-112 | sorting keeps, under every key, the values in insertion order |
| FlatMultiMap.FlatMultiMapBuilder.Insert | src/flatbuffers/containers/flat_multimap.rs:99-101 | appends to the list of insertions |
| FlatMultiMap.FinishEntries | src/flatbuffers/containers/flat_multimap.rs:103-128 | the two columns are sorted and hold, under each key, its insertions in order |
| FlatMultiMap.PartitionPoint | src/flatbuffers/containers/sorted_index.rs:32-52 | bisection finds the boundary of any predicate that holds on a prefix |
| FlatMultiMap.FlatMultiMapViewIterator.Next | src/flatbuffers/containers/flat_multimap.rs:76-83 | yields what remains, one value at a time, and stops only when nothing remains |
| FlatMultiMap.Get | src/flatbuffers/containers/flat_multimap.rs:37-48 | None exactly when nothing was inserted under the key, else an iterator over exactly those values in order |
| FlatMultiMap.Lookup | src/flatbuffers/containers/flat_multimap.rs:37-128 | inserting any list, finishing and iterating yields the insertions under a key in order |
| FlatMultiMap.UnderInOrder | src/flatbuffers/containers/flat_multimap.rs:76-83 | the values under a key are those of the insertions with this key, in order |
| FlatMap.Finish | src/flatbuffers/containers/flat_map.rs:50-73 | whatever order the hash map lists its bindings in, the columns hold exactly them, sorted |
| FlatMap.Get | src/flatbuffers/containers/flat_map.rs:37-44 | looking a key up in the columns is looking it up in the map |
| Tokenizer.TokensAreTheKeptRuns | src/utils.rs:36-78 | the tokens are exactly the maximal runs of token characters that are longer than one, not next to '*', and not skipped at an end |
| Tokenizer.Tokenize | src/utils.rs:36-78 | the loop appends those tokens, as many as leave one slot of the buffer free; no push overflows |
| FilterTokens.SourceHostnameHashes | src/request.rs:153-164 | the source host and every suffix of it after a dot |
| FilterTokens.CalculateTokens | src/request.rs:241-247 | the tokens of the URL and the zero token fit the buffer |
| FilterTokens.GetTokens | src/filters/network.rs:884-959 | domain, pattern, host name, parameter and protocol tokens, each where the source adds it, never overflowing the one buffer |
| TokenMeaning.TokensOfMean | src/filters/network.rs:884-959 | which hashes the tokens of a filter are, field by field, whenever they fit the buffer; a filter without any goes by its domains |
| Interning.EngineFlatBuilder.GetOrInsertUniqueDomainHash | src/filters/fb_builder.rs:29-37 | the hash list and the map stay inverse to each other and indices never change |
| Interning.EngineFlatBuilder.InternDomains | src/filters/fb_network_builder.rs:49-67 | the index list is sorted, without repetitions, and names exactly the hashes of the option |
| Interning.RebuildMap | src/filters/filter_data_context.rs:19-30 | the map rebuilt on loading is the map of the builder |
| Interning.BinLookupIsMembership | src/utils.rs:125-127 | binary search in a sorted list is membership |
| Interning.MappedChecksAgree | src/filters/network_matchers.rs:418-464 | for every request the checks over indices agree with membership of its source hashes in the domain lists |
| RegexManagement.RunsAreFaithful | src/regex_manager.rs:242-323 | in every run every live regex is what its key compiles to |
| RegexManagement.CacheIsTransparent | src/regex_manager.rs:242-282 | after any run a lookup answers as compiling afresh would |
| RegexManagement.CounterIsTotal | src/regex_manager.rs:242-323 | in every run the counter is the number of compilations, and never below the number of live regexes |
| RegexManagement.IdleBound | src/regex_manager.rs:288-307 | after every update of the time no live regex has been idle for the discard time plus the cleanup interval |
| RegexManagement.LiveExactlyWhen | src/regex_manager.rs:242-323 | in every run a regex is live exactly when no event has discarded it, by name or in a sweep after the discard time, since it was last looked up |
| RegexRuns.LiveMeans | src/regex_manager.rs:242-323 | after any run a regex is live exactly when no event since its last lookup dropped it: by name, or in a cleanup, asked for or due by the clock, at least the discard time after that lookup |
| RegexRuns.EntryMeans | src/regex_manager.rs:258-282 | an entry records how often its key was looked up, and the clock at the last lookup |
| RegexRuns.ClockMeans | src/regex_manager.rs:288-312 | clock, policy and time of the last cleanup after any run, from the events |
| RegexManagement.RegexManager.Matches | src/regex_manager.rs:242-282 | the answer of compiling afresh, and the step of the state machine |
| RegexManagement.RegexManager.UpdateTime | src/regex_manager.rs:288-296 | the step of the state machine |
| RegexManagement.RegexManager.Cleanup | src/regex_manager.rs:299-307 | the step of the state machine |
| RegexManagement.RegexManager.DiscardRegex | src/regex_manager.rs:316-323 | the step of the state machine |
| RegexManagement.RegexManager.SetDiscardPolicy | src/regex_manager.rs:310-312 | the step of the state machine |
| Matching.CheckPatternWith | src/filters/network_matchers.rs:77-397 | pattern checks that go through the regex cache equal the pattern checks on values, for every combination of anchors |
| Matching.FlatFilterMatches | src/filters/fb_network.rs:143-172 | the stored form of a filter, with interned domains and cached regexes, matches exactly when the filter does |
| MatchMeaning.FilterMatchesMeans | src/filters/network_matchers.rs:26-464 | which requests a filter matches: type, protocol and party by its flags, source by its domains, host name by the places where it stands in the host, and each pattern, plain or regex, by the place where it stands in the URL, behind the host name or where its anchors bind it; every combination of anchors |
| MatchMeaning.PlainPatternMeans | src/filters/network_matchers.rs:77-345 | one plain pattern matches exactly when it stands in the URL at or after the end of the first place of the host name, at that end if anchored to the left, at the end of the URL if anchored to the right |
| MatchMeaning.AnchoredMeans | src/filters/network_matchers.rs:26-74 | anchored exactly when the first place of the name begins a label and a label ends where the code looks |
| Matching.AnchoringAtTheEdges | src/filters/network_matchers.rs:26-61 | found first at an edge of the host or not at all: anchored exactly when the name stands in whole labels somewhere, if and only if the first occurrence does or no later one does; with and without wildcard |
| Matching.AnchoringInside | src/filters/network_matchers.rs:44-69 | found first inside the host: the exact condition, on the first occurrence, the character looked at and the later occurrences, under which anchored means standing in whole labels somewhere; with and without wildcard |
| Matching.AnchoredWithinALabel | src/filters/network_matchers.rs:62-69 | an input anchored within a label |
| Matching.NotAnchoredAtALabel | src/filters/network_matchers.rs:62-69 | an input not anchored at a label |
| Matching.NotAnchoredAtALaterLabel | src/filters/network_matchers.rs:44-53 | an input not anchored at a label because the name is found earlier |
| Matching.WildcardMissesALaterLabel | src/filters/network_matchers.rs:44-69 | the same with a wildcard |
| TokenSoundness.TokensAreSound | src/filters/network.rs:884-959 | if the pattern's first token is bound by an anchor and the host name's last token is closed or repeated, every token of a matching filter is among the tokens of its request, and of several domains one is |
| TokenSoundness.ParamTokensAreFound | src/filters/network.rs:931-937 | the tokens of a parameter name are tokens of every URL that holds the parameter with a value |
| TokenGaps.UnanchoredFirstToken | src/filters/network.rs:904-912 | every web request whose URL holds an unanchored plain pattern has the pattern's first token, exactly when that token occurs again in the pattern, or the pattern holds a '*' or an upper-case letter, and so occurs in no such URL |
| TokenGaps.UnanchoredTokenMissing | src/filters/network.rs:904-912 | a filter that matches a request without its first token |
| TokenGaps.HostnameTokensInHosts | src/filters/network.rs:917-929 | every host that a name without wildcard is anchored in holds all its tokens exactly when the name does not end in a token, or holds that token further ahead as well, or holds a '*' |
| TokenGaps.HostnameTokenMissing | src/filters/network_matchers.rs:62-69 | a filter that matches a request without its host name token |
| Optimizer.Fusion | src/optimizer.rs:88-134 | the fused filter of a group |
| Optimizer.FusionMeans | src/optimizer.rs:88-134 | of every group of one mask: the fused filter matches what some member matches, unless a pattern does not compile and no member is empty or has an empty pattern; then it matches nothing |
| Optimizer.FusionIsRightExactlyWhen | src/optimizer.rs:88-134 | for a request, the fused filter matches exactly when some member does, if and only if no regex is used, or a member is empty, or a pattern is, or every pattern compiles, or no member matches |
| Optimizer.PatternsAreAlternatives | src/filters/network_matchers.rs:77-169 | without host anchor a list of patterns is a disjunction, for plain and regex filters and every anchor combination |
| Optimizer.FusionKeepsMeaning | src/optimizer.rs:88-134 | the fused filter matches a request exactly when some filter of the group does |
| Optimizer.ApplyOptimisation | src/optimizer.rs:43-74 | left alone is exactly what is not fused by patterns or has no companion of its mask; fused are exactly the groups of two or more, each whole and in list order |
| Optimizer.Optimize | src/optimizer.rs:22-41 | the optimized list holds exactly what is left alone and the fused groups; with one tag to a group and patterns that compile it accepts what the list did |
| Optimizer.NeverFused | src/optimizer.rs:8-20 | redirects, policies, rules for some hosts and rules for some sources are in the optimized list as they were |
| Optimizer.AlwaysFused | src/optimizer.rs:8-74 | of other rules of one mask none is left as it was if there are two or more |
| Optimizer.OptimizingIsRightExactlyWhen | src/optimizer.rs:22-41 | for every list, request, mask and set of tags: the exact condition under which the optimized list accepts exactly when the list did |
| Optimizer.SecondTagIsLost | src/optimizer.rs:136-138 | two rules of one mask under different tags: under the second tag a request is lost, under the first one is gained |
| Optimizer.FusedTagIsRightExactlyWhen | src/optimizer.rs:136-138 | the exact condition under which the tag of the first filter is right for the whole group |
| Optimizer.GoodRuleIsSilenced | src/optimizer.rs:98-115 | two regex rules, one of which does not compile: optimized, neither matches |
| TokenChoice.TokenSelector.SelectLeastUsedToken | src/filters/token_selector.rs:84-107 | the loop computes the choice: one of the list, and no token is used less; zero only if all are used beyond counting |
| TokenChoice.SelectedIsLeast | src/filters/token_selector.rs:84-107 | the same of the choice as a function of the usage counts |
| TokenChoice.TokenSelector.RecordUsage | src/filters/token_selector.rs:110-112 | counts one more use of the short token and no other |
| TokenChoice.UsageIsBucketSize | src/filters/fb_network_builder.rs:141-181 | after any list the count of a token is what it started with and the size of its bucket |
| TokenChoice.StartCounts | src/filters/token_selector.rs:14-79 | a listed word starts with the count of its list, any other token with none |
| TokenChoice.DistributionDistributes | src/filters/fb_network_builder.rs:141-181 | every filter of a list is stored under each of its domains, or under one of its tokens, or under zero, and nothing else is stored |
| FilterList.ListSerializer.SerializeFilter | src/filters/fb_network_builder.rs:45-115 | the stored form stands for the filter in the current interning |
| FilterList.ListSerializer.StoreAll | src/filters/fb_network_builder.rs:141-181 | the calls that store a list are, in order, those that its tokens and the usage counts so far ask for |
| FilterList.ListSerializer.OptimizeBuckets | src/filters/fb_network_builder.rs:184-196 | afterwards each bucket holds exactly what optimizing all its filters leaves alone, and their fused groups |
| FilterList.CheckBucket | src/network_filter_list.rs:91-108 | the hits of one bucket, or the first of them |
| FilterList.Check | src/network_filter_list.rs:77-111 | the first hit over the tokens of the request, None if there is none |
| FilterList.CheckAll | src/network_filter_list.rs:117-152 | all hits in order |
| IndexedScan.TokensReachByProviso | src/request.rs:105-113 | the token property gives what the index needs, filter by filter |
| IndexedScan.ReachedByDomain | src/filters/fb_network_builder.rs:163-174 | filters that go by their domains, or have no token, are reached without any proviso |
| IndexedScan.IndexEqualsScan | src/network_filter_list.rs:77-111 | the buckets visited accept, mask by mask, exactly when the scan of the list does; short-hash collisions add and lose nothing; optimized, for buckets whose fusable filters of one mask share a tag and compile |
| IndexedScan.IndexIsScanExactlyWhen | src/network_filter_list.rs:77-111 | with optimization, for every list, request and set of tags: the exact condition, on the filters left alone and the groups of the visited buckets, under which lookup and scan agree |
| IndexedScan.SerializeList | src/filters/fb_network_builder.rs:129-213 | serializing a list, optimized or not, makes the index of its distribution: each bucket as it is filled, or exactly what is left alone in it and its fused groups |
| IndexedScan.CheckRules | src/network_filter_list.rs:77-111 | serializing, loading and checking, for every list: finds a filter exactly when a visited bucket accepts, with the mask of such an answer; and where index and scan agree, exactly when the scan does |
| IndexedScan.CheckAllRules | src/network_filter_list.rs:117-152 | of an unoptimized list, all results are those of exactly the filters the scan accepts |
| Blocker.ListForMeans | src/filters/fb_network_builder.rs:217-273 | a list holds exactly the rules that are not disabled by a `badfilter` rule and belong there |
| VerdictMeaning.ListHolds | src/filters/fb_network_builder.rs:235-269 | for each of the eight lists, by flags and tag alone, which rules that no `badfilter` rule disables it holds |
| VerdictMeaning.ListInOrder | src/filters/fb_network_builder.rs:235-269 | and it holds them in rule order |
| VerdictMeaning.OneList | src/filters/fb_network_builder.rs:247-269 | besides the redirects such a rule is in exactly one list, or in none if it only redirects |
| Blocker.FromRules | src/filters/fb_network_builder.rs:217-273 | sorting puts the rules into the eight lists, in rule order |
| Blocker.CheckParameterised | src/blocker.rs:171-300 | matched, important, filter and exception by what the indexes of the asked lists find, for all rules; and by the scan of the rule list where index and scan agree |
| VerdictMeaning.VerdictMeans | src/blocker.rs:171-300 | the verdict by the flags and tags of the rules that match: an important rule blocks anyway, any other only if no exception applies, and exceptions are asked for exactly then or when forced |
| VerdictMeaning.ExceptionLetsThrough | src/blocker.rs:203-218 | an exception that matches lets the request through, unless an untagged important rule matches |
| ImportantRules.TaggedImportantIsIdleExactlyWhen | src/blocker.rs:187-201 | an important rule with a tag changes no verdict, exactly when lists are not optimized or the index of the important rules still answers as their scan does: what is alone, in which group, and with which first tag |
| ImportantRules.TaggedImportantIsIdle | src/blocker.rs:187-201 | it changes none, wherever it stands and whatever tags are enabled, without optimization, or if no other important rule that may be fused has its mask |
| ImportantRules.TaggedRuleTakesAnotherDown | src/optimizer.rs:136-138 | two important rules, the first tagged: optimized, the second is no longer found though it matches |
| ImportantRules.TaggedRuleAppliesUntagged | src/optimizer.rs:136-138 | with the tag on the second, optimized, it is found though no tag is enabled |
| Blocker.ChooseRedirect | src/blocker.rs:224-266 | None exactly when no redirect is left after the exceptions; otherwise the first of highest priority |
| RedirectNames.RedirectRoundTrip | src/blocker.rs:242-255 | a name, ':' and the decimal form of any 32-bit number are read as the name and the number |
| RedirectNames.PlainRedirect | src/blocker.rs:242-255 | anything else is a name of priority 0 |
| Blocker.RedirectFor | src/blocker.rs:220-266 | none exactly when no matching rule asks for a redirect that no matching exception names; otherwise the resource of such a rule of the highest priority |
| UrlParser.Parser.Parse | src/url_parser/parser.rs:321-376 | the parser that grows its serialization computes the parsing function |
| UrlParser.Parser.ParseScheme | src/url_parser/parser.rs:332-351 | the lower-cased scheme is written and the rest of the input is left |
| UrlParser.Parser.ParseUserinfo | src/url_parser/parser.rs:429-482 | user information up to the last '@' of the authority, percent-encoded |
| UrlParser.Parser.ParseHost | src/url_parser/parser.rs:484-541 | the host and the input after it |
| UrlFixedPoint.ParsedIsCanonical | src/url_parser/parser.rs:321-541 | every plain input with a host parses to a canonical form |
| UrlFixedPoint.CanonicalParses | src/url_parser/parser.rs:321-541 | a canonical form parses to itself |
| UrlFixedPoint.OutputIsFixedPoint | src/url_parser/parser.rs:321-541 | parsing the serialization again gives the same serialization and boundaries |
| UrlFixedPoint.HostIsBounded | src/url_parser/parser.rs:407-541 | the host holds no '/', '?' or '#' and is followed by the end or by one of ':', '/', '?', '#', '\\' |
| UrlGrammar.ParsesExactlyWhen | src/url_parser/parser.rs:321-541 | a plain text parses to a URL with a host exactly when it is cut into white space, scheme, slashes, user information, host, rest and white space, each by its own rule, and the URL is made of these pieces; in the host a ':' stands only in brackets |
| UrlGrammar.PiecesParse | src/url_parser/parser.rs:321-541 | every text cut like this parses to the URL made of its pieces |
| UrlGrammar.EncodedDecodes | src/url_parser/parser.rs:453-474 | percent-decoding tells no difference between user information and its encoded form |
| UrlGrammar.EncodedUnlessKept | src/url_parser/parser.rs:453-474 | which characters of user information are encoded, and how |
| UrlGrammar.HostlessParses | src/url_parser/parser.rs:379-405 | another scheme without two slashes gives a URL without a host, lower-cased |
| UrlGrammar.HasScheme | src/url_parser/parser.rs:332-351 | a text that is not refused for want of a scheme begins with one, but for white space |
| OriginalUrl.TailIsKept | src/url_parser/parser.rs:321-541 | of every input with a host, what follows the host is kept as given, up to trailing white space, and no '?' comes before it |
| RequestBuilding.NewRequestIsWellFormed | src/request.rs:184-214 | requests made from plain URLs satisfy what the token, matching and rewriting proofs need, the original text included |
| RequestMeaning.RequestMeans | src/request.rs:115-214 | a request is made exactly from a URL with a host; protocol, type, support, host and URL by the pieces of the text |
| RequestMeaning.SourceMeans | src/request.rs:153-214 | third party and source hashes by the hosts of the two URLs, or without a source |
| RequestMeaning.SuffixHashesMean | src/request.rs:153-164 | the source hashes are those of the host and of what follows each of its dots, if anything does |
| RemoveParam.ApplyRemoveParam | src/blocker.rs:302-387 | the loops compute the rewriting formula, for every URL and list of names |
| RemoveParam.RemovedByParse | src/blocker.rs:336-359 | a piece is removed exactly when it is a named key with a non-empty value |
| RemoveParam.RewritingKeepsTheRest | src/blocker.rs:362-380 | the prefix, the fragment and, in order, the other pieces are kept |
| RemoveParam.RewritingPicks | src/blocker.rs:326-382 | the new query is made of the old pieces at the positions, in order, of those that are not removed; it goes with its '?' exactly when none is left or only an empty one |
| RemoveParam.QueryInPieces | src/blocker.rs:322-335 | every URL with a '?' is a prefix, pieces and a fragment of this kind |
| RemoveParam.RewritingTwice | src/blocker.rs:326-382 | the exact condition under which a second rewriting removes something |
| RemoveParam.SecondTimeRemovesMore | src/blocker.rs:326-382 | a URL from which a second rewriting removes more |
| RemoveParamRules.MissingTokenMeansNoPiece | src/filters/network.rs:931-937 | if a token of the parameter name is no token of the parsed URL, no piece of the query, as it was given, has that name and a value |
| RemoveParamRules.RewriteByRules | src/blocker.rs:302-387 | rewriting the original URL through the token index of the parsed one equals rewriting it by all matching rules, although the index may miss some |
| Resources.InjectableByBits | src/resources/mod.rs:112-123 | injectable exactly when every required bit is granted |
| Resources.InMemoryResourceStorage.AddResource | src/resources/resource_storage.rs:137-172 | succeeds exactly when the content decodes and no identifier is taken; a failure changes nothing |
| Resources.DecodedMeans | src/resources/resource_storage.rs:137-152 | which content is kept as bytes and which as text, and which may have dependencies |
| Resources.AddingBindsItsIdents | src/resources/resource_storage.rs:106-172 | the name and the aliases lead to the new resource and every other identifier leads where it did |
| Resources.GetPermissionedResource | src/resources/resource_storage.rs:417-432 | the resource behind a name or an alias, or the error for a missing or forbidden one |
| Resources.RecursiveDependencies | src/resources/resource_storage.rs:309-329 | the recursion ends on every graph and computes the walk |
| StackWalk.WalkIsVisit | src/resources/resource_storage.rs:309-329 | list and error are those of a walk with an explicit stack, also when it breaks off |
| Resources.WalkFollowsFreePaths | src/resources/resource_storage.rs:309-329 | from any list: success exactly when nothing reached past the names on it is missing or forbidden, and then exactly that is added; stored resources, each once, all injectable |
| Resources.WalkClosesExactlyWhen | src/resources/resource_storage.rs:309-329 | a walk that succeeds leaves the list closed exactly when the list held stored resources, each once, and the new name reached every dependency it lacked |
| Resources.WalkIsClosure | src/resources/resource_storage.rs:309-329 | from a closed list: success exactly when nothing reachable and new is missing or forbidden, and then the list is exactly what it held plus everything reachable, each once, all injectable |
| Resources.ScriptletFollowsFreePaths | src/resources/resource_storage.rs:353-376 | from any list: a scriptlet's dependencies are found exactly when nothing they reach past the list is missing or forbidden, and what is added is exactly that and the scriptlet itself if it is a function |
| Resources.ScriptletClosesExactlyWhen | src/resources/resource_storage.rs:353-376 | a scriptlet that succeeds leaves the list closed exactly when it brings along all that was missing |
| Scriptlets.GetScriptletResource | src/resources/resource_storage.rs:333-391 | one scriptlet rule: every error in the source's order, and the list it leaves behind |
| Scriptlets.NamedMeans | src/resources/resource_storage.rs:340-360 | which resource a rule's first argument finds, ".js" left out or not, by name or alias, and why none |
| Scriptlets.AttemptMeans | src/resources/resource_storage.rs:333-391 | a rule succeeds exactly when that resource is a script as text, and nothing it needs past the list is missing or forbidden; and what is added then |
| Scriptlets.GetScriptletResources | src/resources/resource_storage.rs:275-302 | the loop over the rules of a page, which goes on after errors with the list they leave |
| Scriptlets.RequiredIsTidy | src/resources/resource_storage.rs:275-302 | whatever fails, the required resources are stored ones, each once |
| Scriptlets.RequiredIsClosure | src/resources/resource_storage.rs:275-302 | if nothing that a scriptlet of the page reaches is missing or forbidden, the required resources are closed and exactly what the scriptlets bring along |
| Scriptlets.AttemptClosesExactlyWhen | src/resources/resource_storage.rs:333-391 | from any list: a scriptlet rule that succeeds leaves it closed exactly when it brings along all that was missing |
| Resources.FailedWalkPoisonsTheList | src/resources/resource_storage.rs:315-329 | a failed walk after which a later one misses a dependency |
| Resources.AliasCycleNeverEnds | src/resources/resource_storage.rs:309-329 | with an alias as dependency no recursion depth is enough |
| AliasWalks.WalkEnds | src/resources/resource_storage.rs:309-329 | if no alias in reach leads back to itself over aliases alone, the walk ends, whatever errors it meets |
| AliasWalks.WalkEndsExactlyWhen | src/resources/resource_storage.rs:309-329 | if nothing in reach is missing or forbidden, the walk ends exactly when there is no such alias |
| ScriptletArgs.IndexNextUnescapedSeparator | src/resources/resource_storage.rs:535-574 | the least separator preceded by an even run of backslashes, and whether an escaped one comes before it |
| ScriptletArgs.NormalizeArg | src/resources/resource_storage.rs:577-604 | the loop computes the unescaped text |
| ScriptletArgs.NormalizeEscape | src/resources/resource_storage.rs:577-604 | unescaping undoes escaping the separators |
| ScriptletArgs.ParseScriptletArgs | src/resources/resource_storage.rs:609-674 | the loop ends and computes the arguments, or None for a malformed quote |
| ScriptletGrammar.ParsesExactlyWhen | src/resources/resource_storage.rs:609-674 | which texts parse and to which arguments: a line of arguments with commas between them, in quotes or not, any white space around each, except between the last closing quote and the end |
| ScriptletGrammar.SpacedArgumentsRoundTrip | src/resources/resource_storage.rs:609-674 | any list of arguments, each quoted or with its commas escaped, and with any white space around it, is read back |
| ScriptletArgs.ArgumentsRoundTrip | src/resources/resource_storage.rs:609-674 | escaping commas, joining with commas and parsing gives every list of simple arguments back |
| ScriptletArgs.QuotedTextsParse | src/resources/resource_storage.rs:626-652 | quoting any texts that no quote closes early, joining and parsing gives each text with its commas unescaped if it holds an escaped quote, and as it is otherwise |
| ScriptletArgs.QuotedArgumentsRoundTrip | src/resources/resource_storage.rs:626-652 | quoting, joining with commas and parsing gives every list of arguments back, also blank or empty ones and ones with commas |
| ScriptletArgs.EscapedQuotesStay | src/resources/resource_storage.rs:626-652 | arguments whose quotes were escaped come back with the quotes still escaped, and so unchanged exactly when they hold none |
| ScriptletArgs.UnclosedQuote | src/resources/resource_storage.rs:647-651 | a quote that is not closed makes the whole text malformed |
| ScriptletArgs.TextAfterQuote | src/resources/resource_storage.rs:638-646 | so does anything but a comma after a quote and white space |
| ScriptletArgs.BlankAfterLastQuote | src/resources/resource_storage.rs:633-645 | so does white space between a quote and the end |
| ScriptletArgs.BlankAfterComma | src/resources/resource_storage.rs:618-622 | after any escaped list and a comma, white space is one more, empty argument, and nothing at all is none |
| JsonEscape.StringifyArg | src/resources/resource_storage.rs:185-258 | the two phases equal byte-by-byte escaping, quoted or not |
| JsonEscape.WriteStringComplex | src/resources/resource_storage.rs:218-233 | copying in stretches equals byte-by-byte escaping |
| JsonEscape.EscapeForm | src/resources/resource_storage.rs:198-215 | which bytes are escaped, and by how many characters |
| JsonEscape.QuotedRoundTrip | src/resources/resource_storage.rs:185-258 | decoding the quoted form by section 7 of RFC 8259 gives the argument |
| JsonEscape.SafeInsideAString | src/resources/resource_storage.rs:179-185 | between any two pieces of a JSON string the unquoted form adds the argument and nothing else |
| JsonEscape.OutputIsSafe | src/resources/resource_storage.rs:197-233 | no control byte, no unescaped quotation mark, no backslash left over at the end |
| CosmeticRules.ScriptRoundTrip | src/cosmetic_filter_utils.rs:90-124 | a script and its permission come back from the encoded form |
| CosmeticRules.GetHashesFromLabels | src/filters/cosmetic.rs:544-559 | the hashes of the whole text and of what follows each dot before the start of the domain |
| CosmeticRules.GetEntityHashesFromLabels | src/filters/cosmetic.rs:563-577 | the labels of the host without its public suffix, and the public suffix |
| CosmeticRules.GetHostnameHashesFromLabels | src/filters/cosmetic.rs:581-583 | the host and its enclosing domains down to the registrable one |
| PageMeaning.PageHashMeans | src/filters/cosmetic.rs:522-583 | the hashes of a page, by labels: of the host and the domains around it down to the registrable one, of the public suffix, and of the endings of the host without it; the label before the suffix holds no dot |
| CosmeticCache.CosmeticFilterCacheBuilder.AddFilter | src/cosmetic_filter_cache_builder.rs:90-183 | what is stored grows by exactly the placements of the rule, and the generic tables by its generic selector |
| ClassRules.GenericRules.Add | src/cosmetic_filter_cache_builder.rs:102-141 | a generic selector goes to the table of its sign, there to the names or to the list under its name, or to the rest |
| ClassRules.HeldIsMeantExactlyWhen | src/cosmetic_filter_cache_builder.rs:113-137 | a run of pushes leaves under every key what was pushed there, in order, exactly when each push kept the slot computed for it |
| ClassRules.MeantInOrder | src/cosmetic_filter_cache_builder.rs:113-137 | what was pushed under a key are the selectors of the pushes with this key, in order |
| CosmeticCache.CosmeticFilterCacheBuilder.StoreOne | src/cosmetic_filter_cache_builder.rs:185-245 | each kind goes to its own table or list, in order |
| CosmeticCache.PlacementsSay | src/cosmetic_filter_cache_builder.rs:143-183 | something is stored under a hash exactly when some rule asks for it there, negated for negated locations |
| CosmeticCache.MergedAllMeans | src/cosmetic_filter_cache.rs:273-281 | an injected script has exactly the permission bits that some listing of it grants |
| CosmeticCache.Gather | src/cosmetic_filter_cache.rs:262-292 | the first pass collects everything that is added under the hashes of the page |
| CosmeticCache.Except | src/cosmetic_filter_cache.rs:294-326 | the second pass takes back selectors, actions and scripts; an empty name takes back every script for good |
| CosmeticCache.LookupIsFormula | src/cosmetic_filter_cache.rs:262-345 | the two passes answer by the set formula over the rule list |
| CosmeticCache.PageResources | src/cosmetic_filter_cache.rs:223-355 | building the tables from any rule list and asking for any host gives selectors, exceptions, actions, scripts and permissions by that formula |
| PageMeaning.AnswerMeans | src/cosmetic_filter_cache.rs:223-355 | that formula by the fields of the rules: what each asks for and takes back on the pages it is listed for or excluded from, and the selectors that apply everywhere |
| PageMeaning.RuleMeans | src/cosmetic_filter_cache_builder.rs:143-183 | what one rule, exception or not, asks for and takes back on a page, by its fields |
| CosmeticCache.HiddenClassIdSelectors | src/cosmetic_filter_cache.rs:165-213 | building the tables from any rule list and asking for classes and ids gives what the tables hold under them, without the exceptions, in order |
| CosmeticCache.ClassIdAnswerMeans | src/cosmetic_filter_cache.rs:165-213 | if each push kept its slot, the answer holds exactly the selectors of generic rules that start with a class or id asked for and are no exception |
| PageMeaning.AskedForMeans | src/cosmetic_filter_cache_builder.rs:90-141 | the same by the fields of the rules |
| ClassRules.AnswersMeantExactlyWhen | src/cosmetic_filter_cache.rs:165-213 | the answers to all questions are the intended ones exactly when each push kept its slot |
| ClassRules.MeantAnswerMeans | src/cosmetic_filter_cache.rs:165-213 | the intended answer, selector by selector |
| ClassRules.AnswersAreAdded | src/cosmetic_filter_cache.rs:165-213 | whatever is lost, the answer holds only selectors that were added and are no exception |
| ClassRules.ThirdPushIsLost | src/cosmetic_filter_cache_builder.rs:119-122 | three class names from an empty table, the third of whose selectors is lost |

## Left out

- Optimizer.Optimize: its last clause is stated for lists whose fusable filters with one mask share a tag and have patterns that compile, and `IndexedScan.IndexEqualsScan` asks that of each visited bucket; `Optimizer.OptimizingIsRightExactlyWhen` and `IndexedScan.IndexIsScanExactlyWhen` say what happens to all others.
- HashIndex.GrowthReturnsForeignSlot: uses number keys that hash to themselves, standing in for names under the hash function of the source, which is a parameter everywhere else.
- HashIndex.LosesItem: the same; `ClassRules.ThirdPushIsLost` has names for keys, hashed by their length.
- AliasWalks.WalkEndsExactlyWhen: if something in reach is missing or forbidden, an error may end the walk before it meets an alias that leads back to itself; then only `AliasWalks.WalkEnds` is stated.
- ImportantRules.TaggedImportantIsIdleExactlyWhen: with optimization it compares with important rules whose own index answers as their scan; what optimizing does to others is `IndexedScan.IndexIsScanExactlyWhen`.
- TokenMeaning.TokensOfMean: is about filters whose tokens fit the buffer; what a longer list loses is said by `Tokenizer.Tokenize`.
- RequestMeaning.SourceMeans: is about source URLs of ASCII characters without tab or newline.
- IndexedScan.CheckAllRules: says which results are found, not their order nor how often one occurs, which follow the order of the request's tokens and are stated by `FilterList.CheckAll`.
- TokenSoundness.TokensAreSound: covers patterns without a backslash and leaves out the tokens of a `removeparam` parameter name, because such a filter may match URLs without the parameter; `RemoveParamRules.RewriteByRules` shows that the rewriting does not suffer.
- TokenSoundness.ParamTokensAreFound: is about lower-case parameter names only, because the token is taken from the lower-cased name.
- UrlFixedPoint.OutputIsFixedPoint: is stated for ASCII input without tab or newline, as for other input the host is replaced by a library's result.
- CosmeticCache.PageResources: the joined script text is not part of it.
- CosmeticCache.HiddenClassIdSelectors: the regexes that find the class or id a selector starts with are a parameter, of which only is asked that they find a sign and at least one character.
- HashIndex.HashIndexBuilder.Insert: the source's `allow_duplicates` is not modelled, because every caller passes false.
- Blocker.CheckParameterised: asks each list with a cache of its own, which `RegexManagement.CacheIsTransparent` makes equal to one shared cache; the redirect and the rewritten URL are `Blocker.RedirectFor` and `RemoveParamRules.RewriteByRules`, not fields of its result.
- Blocker.RedirectFor: is about an unoptimized list, which holds the same rules as the optimized one (`Optimizer.RedirectsStay`); which of several rules of one priority wins follows the order of the tokens and is stated by `Blocker.ChooseRedirect` only.
- The hash map and hash set wrappers only pass calls on to the hash table.
- Indices and lengths are unbounded: the 32-bit index of a domain hash and the flatbuffer limits are not modelled.
- A flatbuffer vector is a sequence; the generated accessors and memory alignment are not modelled.
- Regex and CSS libraries, the public suffix list, IDNA, base64 and the hash functions are parameters.
- Characters outside ASCII keep their case and are one unit each; byte offsets are character offsets.
- Parsing of filter lines, lists' metadata, content security policies, the data file header and content-blocking conversion are not modelled.
- `take_resources` empties the resources and keeps the aliases; only adding and looking up are modelled.
- Scriptlets.GetScriptletResources: which resources and scriptlets end up in the script, not its text; the rules come with their arguments parsed (`ScriptletArgs.ParseScriptletArgs`), and finding the function name needs the regex library and is a parameter.
- A set of regexes is taken to compile exactly when each of them does; the library's limit on the size of a whole set is not modelled.
- Decoding a script of one character that takes several bytes would fail in the source; encoded scripts end in two ASCII digits, so it does not arise.
- The order in which script injections are joined follows a hash map and is not modelled.
