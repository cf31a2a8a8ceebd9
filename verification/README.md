# Verified model of blocky's resolution core

blocky is a DNS proxy that blocks names by lists, answers from a custom mapping, caches answers and
races upstream servers. This project models its hardest parts in Dafny and proves what they
promise. `dafny verify dfyconfig.toml` checks everything.

| modules | part of blocky |
|---|---|
| `Split`, `TrieShape`, `TrieRuns`, `TrieExact`, `Trie` | the label trie, as a mutable heap tree with an ownership invariant |
| `StringStore`, `ListEntries`, `ListCache` | packed string buckets, the regex/wildcard/string chain, lookups |
| `ListHistory`, `ListLoads` | loads of groups that run side by side and finish member by member |
| `CustomDns`, `CustomDnsAnswers`, `CustomDnsProofs`, `CustomDnsResolver` | custom mapping with CNAME chains |
| `BlockingStatus`, `RedisSync`, `RedisProofs` | enabling and disabling, timers, and the synchronisation of instances over Redis |
| `BlockingPolicy` | client groups and the blocking verdict, over the list caches |
| `Ttl`, `AnswerCache` | TTL arithmetic and the answer cache |
| `Upstream`, `UpstreamForms`, `ErrorBudget`, `Races` | upstream parser and printer, tolerated parse errors, resolver races |
| `Text`, `Sequences`, `Wrappers`, `Contexts` | strings, sequences, `Option` and `Result`, cancellation |

The layers build on each other. `BlockingResolver.Resolve` calls `ListCache.Match`, which asks the
regex list, the heap trie and the packed strings of each group; so the declared blocking policy is
proved down to the strings that are compared. Code that changes state in the source is a class or an
in-place method here, proved against a specification function; the theorems are about that function
and about whole histories of it, and each such function is also characterised in terms of its inputs alone.

## What the proofs found

- A trie key that starts with two dots, such as `..com`, can make `com` a hit although no parent of it
  was inserted: splitting an empty rest yields an empty label. `Trie.LabelTrie.HasParentOf` states the
  exact answer for all keys in terms of the inserted list, `TrieExact.ExactIff` when a list causes no
  wrong hit, and `ListEntries.NormalizedIsClean` shows that wildcards from lists never cause one.
- Nested trie inserts do not end because keys get shorter: a terminal kept from before may be longer than
  the new key. They end because the first of the two nested inserts goes into an empty node.
- A disable that names an unknown group fails, but only after it has stopped the timer of an earlier
  timed disable, so blocking can stay off for good. This needs no wrong request: two instances with
  different denylists whose valid timed disables cross strand each other
  (`RedisProofs.DifferentGroupsStrand`). For one disable the exact condition is
  `RedisProofs.OneDisableEndsIff`; for many, `RedisProofs.TimedDisablesEnd` needs groups that every
  instance knows.
- `Finish` of the chain swaps the member caches one by one, each under its own lock, and refreshes are not
  serialised. Two loads of one group that finish across each other leave the patterns of the one
  beside the names of the other (`ListHistory.OvertakenGroupIsMixed`), until a later load finishes;
  `ListHistory.InOnePieceIff` gives the exact condition.
- "Disable all" covers the denylist groups and `default`, so the allowlist-only rule keeps blocking.
- An NXDOMAIN response is kept for the negative caching time, whatever its TTLs, and is then served with
  larger TTLs than it had exactly when that time is longer than its smallest TTL
  (`AnswerCache.NegativeIsRaisedIff`). The smallest served TTL is the time left only if some TTL is
  at most 2^31-1, the bound of section 8 of RFC 2181 (`Ttl.SmallestIsSecondsLeft`).
- Only the first OPT record of a response is removed before it is stored (`AnswerCache.StoredWithoutOpt`).
- A CNAME target that ends in two dots would be shown under one name and looked up under another
  (`CustomDnsProofs.LinkShowsOwner`, `CustomDnsProofs.DoubleDotUnlinks`). CNAMEs come only from zone files
  (config/custom_dns.go:33-66), whose parser is not part of this model, so nothing here says that such
  a target can be configured.
- `ConvertPort` accepts port 0 although its message asks for 1 to 65535; the model follows the code.
- `Upstream.String` prints no common name, so the round trip loses it, and nothing else.
- The regex factory slices the slashes off an entry without looking at its length and panics on the
  entry `/` (`ListEntries.PanicsOnSlash`). A list line with a lone slash does reach it: the parser of list
  lines lets through what starts and ends in a slash and compiles (lists/parsers/hosts.go:236-290). The model
  ends the load there; what the goroutine library makes of the panic is not part of it.

## Model

| member | source | states |
|---|---|---|
| `Split.SplitTld` | trie/split.go:8-20 | the label holds no dot, and the rest is strictly shorter than any non-empty name: the measure behind every loop of the trie |
| `Split.CleanKeys` | trie/split.go:8-20 | a key has an empty label after its first one exactly when it starts with two dots and is not all dots |
| `Split.PrefixIsSuffix` | trie/trie.go:9-19 | for names without empty labels, being a label prefix (what the trie compares) is being the name itself or a suffix of it at a dot (what the documentation says) |
| `Text.SameUpToCase` | util/common.go:110-112 | texts are equal in lower case exactly when they differ in the case of letters only, and capitals pair with small letters one to one |
| `Text.DomainOfName` | util/common.go:110-112 | the domain of a question is its name in lower case without one final dot |
| `Text.LessIsOrder` | cache/stringcache/string_caches.go:92-92 | the order of the binary search: a text before its extensions, else the first difference decides |
| `TrieShape.Locate` | trie/trie.go:116-155 | a key that shares a step with the trie is found behind the cell of that step: a leaf there is the whole rest of that key, a branch means the key goes on |
| `TrieShape.SetLeafAdds` | trie/trie.go:84-89 | writing a terminal, which drops the subtree below it, turns the key set into "keep all if a parent is known, else replace the children of the new key by it" |
| `TrieShape.GraftAdds` | trie/trie.go:99-111 | replacing a terminal by a parent node that holds the old and the new rest has the same effect on the key set |
| `TrieRuns.SurvivorsAreMinimal` | trie/trie.go:48-114 | after any sequence of inserts the surviving keys are exactly the minimal inserted ones |
| `TrieRuns.NoSurvivorHidesAnother` | trie/trie.go:48-61 | no survivor is a parent of another |
| `TrieRuns.OrderIsIrrelevant` | trie/trie.go:48-114 | lists with the same entries, in any order and repetition, leave the same keys |
| `TrieRuns.CoveredIffParentInserted` | trie/trie.go:40-42 | the survivors cover a name exactly when it or a parent of it was ever inserted |
| `Trie.TerminalHasParentOf` | trie/trie.go:163-192 | the loop over two remaining texts decides the label-prefix relation, and an empty terminal covers everything |
| `Trie.Parent.HasParentOf` | trie/trie.go:116-155 | the walk over the heap answers: a stored key covers the name, or one key is exactly one empty label longer |
| `Trie.Parent.Insert` | trie/trie.go:72-114 | the in-place insert keeps the heap a tree of the given shape, gives it the specified key set, leaves only the root possibly childless, leaves no cell alone that ends a key in an empty label, and ends although nested inserts may carry longer keys |
| `Trie.Parent.Fill` | trie/trie.go:105-109 | the two nested inserts into a new node leave the old terminal and the new rest, without the one that the other covers |
| `Trie.SplitTerminal` | trie/trie.go:99-111 | linking a new parent node in place of a terminal keeps the tree and adds the key |
| `Trie.PutTerminal` | trie/trie.go:84-89 | overwriting a child with a terminal keeps the tree and drops the nodes below |
| `Trie.LabelTrie.constructor` | trie/trie.go:25-30 | a new trie is valid and empty |
| `Trie.LabelTrie.IsEmpty` | trie/trie.go:32-34 | true exactly when only empty keys were ever inserted |
| `Trie.LabelTrie.Insert` | trie/trie.go:36-38 | appends the key to the history, keeps the heap a valid tree for it, touches no foreign node |
| `Trie.LabelTrie.HasParentOf` | trie/trie.go:40-42 | for every history of inserts, unclean keys included: a hit exactly when the name or a parent of it was inserted, or the inserted keys mislead the trie about the name; the second case never occurs once no inserted key starts with two dots |
| `TrieExact.SpuriousIff` | trie/trie.go:116-192 | the hits that the node structure adds are exactly those that the stored keys explain: one key is the name plus an empty label, no other key lies below the name, and unless the name is a single label another key lies below its parent |
| `TrieExact.NewKeyPartners` | trie/trie.go:84-89 | a new key leaves a root that was not empty without a lone cell that ends in an empty label |
| `TrieExact.EmptyRootEmptyTrie` | trie/trie.go:32-34 | the root has no children exactly when no key is stored |
| `TrieExact.ExactIff` | trie/trie.go:40-61 | all lookups are exact if and only if no key of the list is a misleading one, a condition on the list alone |
| `TrieExact.AnswersIgnoreOrder` | trie/trie.go:48-114 | for arbitrary keys the answers do not depend on the order or repetition of the inserts |
| `TrieExact.MisleadingName` | trie/trie.go:143-180 | for every misleading key the name without its empty label is a wrong hit |
| `TrieExact.LoneKeyMisleads` | trie/trie.go:143-180 | every key of two labels with an empty second one, such as `..com`, misleads when inserted alone |
| `Trie.MisleadTrie` | trie/trie.go:143-180 | the heap trie gives that wrong answer for every list with a misleading key |
| `StringStore.SearchStrings` | cache/stringcache/string_caches.go:88-96 | binary search: everything before the result is smaller, nothing from it on is |
| `StringStore.FoundAtIndex` | cache/stringcache/string_caches.go:92-96 | in a sorted list a string is present exactly when it sits where the search ended |
| `StringStore.JoinCut` | cache/stringcache/string_caches.go:118-129 | cutting the joined bucket every k characters gives each string of the bucket back |
| `StringStore.Contains` | cache/stringcache/string_caches.go:39-62 | binary search inside the packed string agrees with membership of the lower-cased name in the stored set |
| `StringStore.ShiftedInsert` | cache/stringcache/string_caches.go:96-104 | grow by one, shift, overwrite is insertion at the index |
| `StringStore.StringCacheFactory.AddEntry` | cache/stringcache/string_caches.go:107-116 | every entry is taken; the buckets stay sorted per length and hold exactly the lower-cased non-empty entries, and the count counts them |
| `StringStore.StringCacheFactory.InsertString` | cache/stringcache/string_caches.go:88-105 | adds exactly the lower-cased entry to the stored set and keeps all buckets strictly sorted |
| `StringStore.StringCacheFactory.Create` | cache/stringcache/string_caches.go:118-129 | nil exactly when nothing is stored, else the packed form of the ordered buckets |
| `StringStore.ElementCount` | cache/stringcache/string_caches.go:29-37 | dividing the packed lengths counts the distinct stored names |
| `StringStore.StoredAtMostCount` | cache/stringcache/string_caches.go:84-116 | the number of distinct names never exceeds the count of added entries |
| `StringStore.CountIsPositions` | cache/stringcache/string_caches.go:107-113 | the count is the number of non-empty entries added |
| `ListEntries.NormalizeWildcard` | cache/stringcache/string_caches.go:248-255 | lower case, no dot at either end |
| `ListEntries.NormalizedIsClean` | cache/stringcache/string_caches.go:248-255 | normalised wildcards are always keys for which the trie is exact |
| `ListEntries.PanicsOnSlash` | cache/stringcache/string_caches.go:153-159 | slicing off the slashes is out of range exactly for the entry `/` |
| `ListEntries.ShareSnoc` | cache/stringcache/chained_grouped_cache.go:59-67 | an added entry enters the share of the first member that takes it and no other share; a rejected one enters none; for every entry |
| `ListEntries.ChainIsComplete` | cache/stringcache/chained_grouped_cache.go:28-42 | one of the three members hits on its share exactly when some entry of the whole list matches the name |
| `ListEntries.WildcardMeaning` | cache/stringcache/string_caches.go:215-255 | `*.domain`, in any letter case, matches a name exactly when the name is the lower-cased domain or ends in a dot and that domain |
| `ListEntries.RegexForm` | cache/stringcache/string_caches.go:153-163 | regexes are exactly the entries between slashes, and the pattern is what lies between, without white space around it |
| `ListEntries.WildcardForm` | cache/stringcache/string_caches.go:215-226 | the supported wildcards are exactly `*.` followed by a text without `*` |
| `ListEntries.NormalizedForm` | cache/stringcache/string_caches.go:248-255 | the stored key is the text behind `*.`, in lower case and without dots at the ends |
| `ListEntries.PlainMeaning` | cache/stringcache/string_caches.go:25-62 | a plain entry matches exactly the names that differ from it in the case of letters only |
| `ListEntries.RegexMeaning` | cache/stringcache/string_caches.go:137-171 | a regex entry matches what its trimmed pattern matches, if that compiles |
| `ListEntries.UnsupportedMeaning` | cache/stringcache/string_caches.go:221-226 | a wildcard of any other form matches nothing |
| `ListCache.WildcardCacheFactory.AddEntry` | cache/stringcache/string_caches.go:215-234 | takes exactly the entries with a `*`, inserts the normalised form of the supported ones into the heap trie, and keeps that trie exact |
| `ListCache.GroupFactory.AddEntry` | cache/stringcache/chained_grouped_cache.go:59-67 | panics exactly on the entry `/`, before anything changed; takes every other entry, and the three factories keep holding exactly their shares of the entries taken so far |
| `ListCache.GroupFactory.Offer` | cache/stringcache/chained_grouped_cache.go:59-67 | regex, then wildcard, then string: exactly one factory keeps or drops the entry |
| `ListCache.GroupFactory.AddRegex` | cache/stringcache/string_caches.go:153-171 | takes every entry between slashes, keeps the trimmed pattern of those that compile, panics exactly on `/` |
| `ListCache.SortedKeys` | cache/stringcache/chained_grouped_cache.go:37-41 | the keys of the map, strictly sorted |
| `ListCache.Swap` | cache/stringcache/in_memory_grouped_cache.go:62-76 | replaces or deletes one group of a member and leaves every other group's lookup as it was |
| `ListCache.SwapKeepsRegexes` | cache/stringcache/in_memory_grouped_cache.go:62-94 | finishing the regex member keeps "every group holds the patterns of the load that was last finished for it" |
| `ListCache.SwapKeepsStrings` | cache/stringcache/in_memory_grouped_cache.go:62-94 | the same for the packed names of the string member |
| `ListCache.SwapKeepsTries` | cache/stringcache/in_memory_grouped_cache.go:62-94 | the same for the heap tries of the wildcard member: the finished trie takes its group's place, or the group loses its trie, and no other trie is affected |
| `ListCache.ListCache.constructor` | lists/list_cache.go:72-90 | the chain starts without any group |
| `ListCache.ListCache.Refresh` | cache/stringcache/chained_grouped_cache.go:44-53 | a fresh factory made of fresh objects; the cache does not change |
| `ListCache.ListCache.FinishRegex` | cache/stringcache/in_memory_grouped_cache.go:65-94 | this member's group now holds the factory's entries; nothing else changes |
| `ListCache.ListCache.FinishWildcard` | cache/stringcache/in_memory_grouped_cache.go:65-94 | likewise; the cache takes over the factory's trie and no other object |
| `ListCache.ListCache.FinishStrings` | cache/stringcache/in_memory_grouped_cache.go:65-94 | likewise for the packed names |
| `ListCache.ListCache.RegexContains` | cache/stringcache/string_caches.go:137-147 | some pattern of the group matches |
| `ListCache.ListCache.WildcardContains` | cache/stringcache/string_caches.go:200-202 | the group's heap trie answers "the name or a parent of it is a key of the group" |
| `ListCache.ListCache.StringContains` | cache/stringcache/string_caches.go:39-62 | the lower-cased name is among the names that the member last finished for the group |
| `ListCache.ListCache.RegexGroups` | cache/stringcache/in_memory_grouped_cache.go:46-60 | exactly the requested groups whose loaded regexes hit |
| `ListCache.ListCache.WildcardGroups` | cache/stringcache/in_memory_grouped_cache.go:46-60 | exactly the requested groups whose loaded wildcards hit |
| `ListCache.ListCache.StringGroups` | cache/stringcache/in_memory_grouped_cache.go:46-60 | exactly the requested groups whose loaded names hit |
| `ListCache.ListCache.GroupHits` | lists/list_cache.go:76-109 | what the regex and wildcard members hold for a group answers for the entries they last finished |
| `ListCache.ListCache.Match` | lists/list_cache.go:106-109 | the strictly sorted list of exactly the requested groups in which some member hits on what it last finished |
| `ListHistory.LastFinishWins` | cache/stringcache/in_memory_grouped_cache.go:62-94 | over every history of refreshes, added entries, failures and member-wise finishes by any number of loads, each member holds for each group exactly the entries of the load that finished on that member last |
| `ListHistory.UnfinishedLeavesNoTrace` | lists/list_cache.go:192-207 | a load that finishes no member, because it failed or panicked, leaves the state that the history without it leaves |
| `ListHistory.FinishedAre` | cache/stringcache/chained_grouped_cache.go:78-82 | a load has finished exactly the members before its position in the chain |
| `ListHistory.InOnePieceIff` | cache/stringcache/chained_grouped_cache.go:78-82 | the exact condition for whole groups: a load that has finished the chain is the one all members hold if and only if no other load of the group finished a member after it |
| `ListHistory.LookupsSeeOneLoad` | cache/stringcache/chained_grouped_cache.go:28-82 | under that condition a lookup matches exactly what the entries of that one load match |
| `ListHistory.OvertakenGroupIsMixed` | cache/stringcache/chained_grouped_cache.go:78-82 | two loads of one group that finish across each other leave a group that answers for the pattern of the one and the name of the other, although both have finished |
| `ListLoads.Loader.constructor` | lists/list_cache.go:72-90 | no load has started and the cache is empty |
| `ListLoads.Loader.Begin` | lists/list_cache.go:116-162 | a new factory, apart from all others; the history grows by the refresh |
| `ListLoads.Loader.AddEntry` | lists/list_cache.go:180-192 | only this load's factory changes: the cache and all other loads are as they were; panics exactly on `/` |
| `ListLoads.Loader.GiveUp` | lists/list_cache.go:194-207 | a failed load is dropped without a visible change |
| `ListLoads.Loader.Finish` | cache/stringcache/in_memory_grouped_cache.go:62-94 | one member of the chain takes over its share while other loads may be anywhere; the heap then is what the history says |
| `ListLoads.Loader.FinishAll` | cache/stringcache/chained_grouped_cache.go:78-82 | finishing the chain without interruption leaves the whole group with the entries of the load |
| `ListLoads.Loader.Consume` | lists/list_cache.go:180-192 | the factory gets all entries in order, up to a panic, and the flag says whether there was one |
| `ListLoads.Loader.CreateCacheForGroup` | lists/list_cache.go:159-212 | panics exactly if an entry is `/`; commits exactly without an error, or with entries and an error that is not transient; unless committed every lookup in every group answers as before, and a committed group matches exactly what its entries match while all other groups answer as before |
| `ListLoads.Loader.Match` | lists/list_cache.go:106-109 | at any point of any history lookups see the finished members of that history |
| `CustomDns.VisitTarget` | resolver/custom_dns_resolver.go:265-279 | following a target not yet visited leaves strictly fewer targets to visit |
| `CustomDns.NestingBound` | resolver/custom_dns_resolver.go:247-287 | the nesting depth of requests never exceeds the number of CNAME targets not yet visited, cyclic mappings included |
| `CustomDns.LongestSuffixDecides` | resolver/custom_dns_resolver.go:116-160 | the walk over the name picks a mapped domain exactly when it is the longest mapped suffix of the name |
| `CustomDnsAnswers.MappingAnswers` | resolver/custom_dns_resolver.go:107-287 | for a name with a longest mapped suffix: if an entry of it speaks to the question, the answer is one part per entry in mapping order; else an empty success or the answer of the next resolver, as configured |
| `CustomDnsAnswers.EntryPart` | resolver/custom_dns_resolver.go:167-287 | the part of an entry: one record with its data and TTL for A, AAAA, TXT or SRV if that type is asked for, none if not; for a CNAME its record and, unless CNAMEs are asked for, the answer for its target |
| `CustomDnsAnswers.OwnRecordsIff` | resolver/custom_dns_resolver.go:203-245 | a record is among the contributions of the non-CNAME entries exactly when one of them gives it: owner, TTL, data and question type spelled out for the four types |
| `CustomDnsAnswers.UnmappedIsDelegated` | resolver/custom_dns_resolver.go:116-164 | a name of which no suffix is mapped gets exactly what the next resolver returns |
| `CustomDnsProofs.HopFails` | resolver/custom_dns_resolver.go:107-165 | one hop fails exactly by its own fault (unsupported record, revisited target, failing next resolver) or because a followed target fails |
| `CustomDnsProofs.FailsOnlyOnBadChain` | resolver/custom_dns_resolver.go:247-287 | a failure yields a chain of distinct targets that ends in a faulty hop |
| `CustomDnsProofs.BadChainFails` | resolver/custom_dns_resolver.go:247-287 | any such chain makes the request fail |
| `CustomDnsProofs.FailsIff` | resolver/custom_dns_resolver.go:107-287 | resolution fails if and only if such a chain exists, for every mapping and next resolver |
| `CustomDnsProofs.FailsOnlyOnLoops` | resolver/custom_dns_resolver.go:247-287 | with supported records and a next resolver that never fails: if and only if the question is not for CNAME and a chain comes back to a target |
| `CustomDnsProofs.AnswersAreLinked` | resolver/custom_dns_resolver.go:116-287 | for every mapping: each record of an answer is owned by the question name, or by the name under which the target of a CNAME earlier in the same answer is looked up, or is what the next resolver returns for that name |
| `CustomDnsProofs.FqdnRestores` | resolver/custom_dns_resolver.go:256-276 | the name looked up for a target is the one the record shows exactly for targets that do not end in two dots |
| `CustomDnsProofs.LinkShowsOwner` | resolver/custom_dns_resolver.go:256-276 | a link shows the owner of the linked record if and only if its target does not end in two dots |
| `CustomDnsProofs.ProperAnswersShowOwners` | resolver/custom_dns_resolver.go:203-287 | in an answer without such targets every CNAME names the owner it leads to |
| `CustomDnsProofs.DoubleDotUnlinks` | resolver/custom_dns_resolver.go:247-287 | a mapping with a target that ends in two dots whose answer has a link that does not show the owner |
| `Contexts.Context.IsDone` | resolver/custom_dns_resolver.go:120-122 | a context may be cancelled at any check and stays cancelled |
| `CustomDnsResolver.Resolver.ProcessRequest` | resolver/custom_dns_resolver.go:107-165 | the loop over the domain and its entries returns the specified response, or the context error and then only if the context is done; a context that is done at the start gives that error; requests nest no deeper than there are targets left |
| `CustomDnsResolver.Resolver.ProcessAll` | resolver/custom_dns_resolver.go:126-189 | the answer is built entry by entry in mapping order; the first error wins |
| `CustomDnsResolver.Resolver.ProcessCname` | resolver/custom_dns_resolver.go:247-287 | the CNAME record, followed by the answer for its target unless the question is for CNAME or the target was visited |
| `BlockingStatus.StepsKeepConsistent` | resolver/blocking_resolver.go:230-296 | enable and every disable, failed ones too, keep "enabled exactly when no group is disabled, and only known groups are" |
| `BlockingStatus.SortStrings` | resolver/blocking_resolver.go:216-216 | sorted, and a permutation of the input |
| `BlockingStatus.SortedIsUnique` | resolver/blocking_resolver.go:212-219 | the order of map iteration does not show in the sorted group list |
| `BlockingStatus.StatusHolder.constructor` | resolver/blocking_resolver.go:149-152 | blocking starts enabled, without disabled groups and without a timer |
| `BlockingStatus.StatusHolder.RetrieveAllBlockingGroups` | resolver/blocking_resolver.go:212-219 | the denylist groups and `default`, with multiplicity, sorted |
| `BlockingStatus.StatusHolder.InternalEnableBlocking` | resolver/blocking_resolver.go:230-239 | stops the timer, clears the groups, enables |
| `BlockingStatus.StatusHolder.InternalDisableBlocking` | resolver/blocking_resolver.go:255-296 | succeeds exactly when every group is a denylist group or `default`, found by binary search over the sorted list; then exactly the requested groups, or all, are disabled and a timer runs exactly if there is a duration; else only the timer is stopped |
| `RedisSync.LoadBroadcast` | redis/redis.go:139-152 | publishing adds the weight of the message once for every instance |
| `RedisSync.ProcessLoad` | redis/redis.go:238-275 | processing a received message, own or foreign, lowers the load of the instance even if it arms a timer |
| `RedisSync.CallbackLoad` | resolver/blocking_resolver.go:289-292 | a timer callback, although it publishes again, lowers the load of its instance by exactly one, and by the weight of the timer it stops |
| `RedisSync.CallbackAnnounces` | resolver/blocking_resolver.go:222-292 | a timer callback enables its instance and puts exactly one enable message of that instance into its outbox; no other instance changes |
| `RedisSync.EnableAnnounces` | resolver/blocking_resolver.go:222-239 | an enable command does the same and stops the timer |
| `RedisSync.DisableAnnounces` | resolver/blocking_resolver.go:242-296 | a disable of known groups, or of all, sets exactly these, starts a timer if it has a duration and is announced as given; with an unknown group it only stops the timer |
| `RedisSync.ReceiveActs` | redis/redis.go:238-275 | own messages do nothing, foreign enables enable, foreign disables disable or fail as commands do, and nothing is published in return |
| `RedisSync.PublishDelivers` | redis/redis.go:139-152 | a published message reaches every inbox once, its sender's included, and leaves the outbox |
| `RedisSync.FireStarts` | resolver/blocking_resolver.go:289-292 | a timer that fires starts one callback and runs no longer |
| `RedisSync.StepDecreases` | resolver/blocking_resolver.go:177-200 | every step that is not a command strictly lowers the weighted measure of the whole system |
| `RedisSync.RunsEnd` | resolver/blocking_resolver.go:222-296 | once commands stop, the length of every run is bounded by the measure |
| `RedisSync.StuckIsQuiet` | resolver/blocking_resolver.go:177-200 | a system can do nothing by itself exactly when nothing is in flight and no timer or callback is pending |
| `RedisProofs.RunsKeepConsistent` | resolver/blocking_resolver.go:230-296 | every instance is consistent in every reachable state of commands, timers, started callbacks and messages |
| `RedisProofs.TimedDisablesEnd` | resolver/blocking_resolver.go:255-296 | if all disables are timed and name groups that every instance knows, every run that ends quiet ends with blocking enabled on every instance, whatever groups the instances know besides |
| `RedisProofs.DisableRecoversIff` | resolver/blocking_resolver.go:255-296 | exactly which disables leave their own instance enabled or with something pending that will enable it |
| `RedisProofs.ReceiveRecoversIff` | redis/redis.go:238-275 | the same for every received message, unknown groups included |
| `RedisProofs.OneDisableEndsIff` | resolver/blocking_resolver.go:242-296 | one disable given to any instance of a quiet net with blocking on, whatever groups the instances know: once nothing more can happen blocking is on everywhere if and only if the disable was timed or failed |
| `RedisProofs.FailedDisableStrands` | resolver/blocking_resolver.go:261-272 | a disable with an unknown group after a timed one leaves blocking off for good: the timer was stopped first |
| `RedisProofs.DifferentGroupsStrand` | resolver/blocking_resolver.go:177-272 | two instances with different groups, each disabled for a time and validly, whose messages cross: each stops its timer over the unknown group of the other, and blocking stays off on both |
| `RedisProofs.CallbackEnablesAll` | resolver/blocking_resolver.go:177-292 | after a timer callback every run to quiet, with nothing else pending and no disable in flight, ends with blocking on at every instance, whatever groups it knows and whoever disabled it |
| `RedisProofs.StepKeepsSpreading` | redis/redis.go:247-273 | delivery keeps "whoever does not show the outcome of the command still has its message ahead" |
| `RedisProofs.CommandsConverge` | resolver/blocking_resolver.go:222-253 | a successful command, issued with nothing in flight, ends with the same flag and disabled groups everywhere unless a callback runs in between |
| `RedisProofs.FailedCommandKeepsAgreement` | resolver/blocking_resolver.go:242-253 | a failed command publishes nothing and changes no visible status |
| `BlockingPolicy.PolicyIsUnique` | resolver/blocking_resolver.go:366-431 | the declared policy admits one verdict per request: the reason and the order of its groups are fixed too |
| `BlockingPolicy.AllowlistedNeverBlocked` | resolver/blocking_resolver.go:366-431 | an allowlisted name passes whatever its answer contains |
| `BlockingPolicy.ReasonsNameActiveGroups` | resolver/blocking_resolver.go:366-431 | groups in a reason are assigned to the client, not disabled, and hold a match of the question name or of an answer record of the named kind |
| `BlockingPolicy.AllDisabledBlocksNothing` | resolver/blocking_resolver.go:366-431 | without active denylist groups only the allowlist-only reason is left |
| `BlockingPolicy.BlockingResolver.DisabledIsInactive` | resolver/blocking_resolver.go:212-219 | disabling all groups makes every denylist group inactive for every client |
| `BlockingPolicy.BlockingResolver.CollectWhere` | resolver/blocking_resolver.go:468-498 | the groups of exactly the selected client identifiers |
| `BlockingPolicy.BlockingResolver.GroupsToCheckForClient` | resolver/blocking_resolver.go:463-516 | sorted; exactly the groups assigned by name, address, CIDR or host name, or else the default ones, minus the disabled ones |
| `BlockingPolicy.BlockingResolver.ActiveGroupsAre` | resolver/blocking_resolver.go:463-516 | the active groups, spelled out: those an identifier gives by client name, address, network or host name, or else the `default` ones, less the disabled ones |
| `BlockingPolicy.FqdnForm` | resolver/blocking_resolver.go:631-635 | an identifier counts as a host name exactly when a dot lies between two other characters |
| `BlockingPolicy.BlockingResolver.Active` | resolver/blocking_resolver.go:449-511 | drops exactly the disabled groups |
| `BlockingPolicy.BlockingResolver.Matches` | resolver/blocking_resolver.go:518-526 | the sorted groups that hold a match, non-empty exactly when the name is listed |
| `BlockingPolicy.BlockingResolver.HasAllowlistOnlyAllowed` | resolver/blocking_resolver.go:356-364 | some group has allowlist sources and no denylist |
| `BlockingPolicy.DetermineAllowlistOnlyGroups` | resolver/blocking_resolver.go:317-329 | exactly the groups that have at least one allowlist source and are not configured as denylist |
| `BlockingPolicy.BlockingResolver.HandleDenylist` | resolver/blocking_resolver.go:366-398 | decides exactly when the name is allowlisted, an allowlist-only group is active or the name is denylisted, and then as the policy declares for any answer |
| `BlockingPolicy.BlockingResolver.CheckRecord` | resolver/blocking_resolver.go:416-426 | a record is refused exactly when the text it is looked up by is denylisted and not allowlisted |
| `BlockingPolicy.LookedUpIsChecked` | resolver/blocking_resolver.go:433-446 | the text: the address of an A record as it is, of an AAAA record in lower case, the target of a CNAME in lower case without one final dot; kinds IP and CNAME; other records have none |
| `BlockingPolicy.PolicyFollowsAnswers` | resolver/blocking_resolver.go:410-428 | if the name does not decide, the first record whose text is refused gives the reason, with its kind and the sorted groups that hold the text; without one the answer passes |
| `BlockingPolicy.OtherRecordsDoNotMatter` | resolver/blocking_resolver.go:433-446 | an answer of other records never changes the verdict |
| `BlockingPolicy.BlockingResolver.InspectAnswer` | resolver/blocking_resolver.go:414-428 | finds the first refused record |
| `BlockingPolicy.BlockingResolver.Resolve` | resolver/blocking_resolver.go:401-431 | for every client, name, list content, status and answer the verdict is the one the policy declares, and answers decide by the spelled-out texts of their records |
| `Ttl.ClampHeader` | resolver/caching_resolver.go:360-372 | one header is raised to the minimum, then lowered to the maximum; the others are untouched |
| `Ttl.ClampMeaning` | resolver/caching_resolver.go:360-372 | a clamped TTL never exceeds the maximum, reaches the minimum unless the maximum is lower, is kept within the bounds, and else is a bound |
| `Ttl.AdjustTtls` | resolver/caching_resolver.go:353-381 | all headers are clamped in place, and the result is the smallest clamped TTL (at most 2^31-1) in nanoseconds, or the negative caching time for an empty answer |
| `Ttl.SetTtlInCachedResponse` | resolver/caching_resolver.go:265-275 | all headers become the aged ones, in wrapping 32-bit arithmetic |
| `Ttl.MinTtl` | resolver/caching_resolver.go:265-270 | a lower bound of all TTLs that is one of them, unless all exceed 2^31-1 |
| `Ttl.ExpirationFits` | resolver/caching_resolver.go:353-381 | the expiration never overflows 64-bit nanoseconds |
| `Ttl.AgeingIsExact` | resolver/caching_resolver.go:265-275 | while at most the smallest TTL is left, nothing wraps, and no served TTL exceeds the stored one |
| `Ttl.SmallestIsSecondsLeft` | resolver/caching_resolver.go:265-275 | the smallest served TTL is the whole seconds left if and only if some stored TTL is at most 2^31-1 |
| `Ttl.DifferencesAreKept` | resolver/caching_resolver.go:265-275 | all pairwise TTL differences survive |
| `Ttl.LaterHitsServeLess` | resolver/caching_resolver.go:265-275 | no TTL rises between two hits on one entry |
| `Ttl.RaisedIff` | resolver/caching_resolver.go:265-275 | an answer kept for some time is at some moment served with a larger TTL than stored if and only if it is kept for more seconds than its smallest TTL and the TTL is below 2^32-1, wrap-around included |
| `AnswerCache.KeyRoundTrip` | util/common.go:186-204 | extracting from a generated key gives the type and the lower-cased name back |
| `AnswerCache.KeysAgree` | util/common.go:186-194 | two questions share a key exactly when types agree and names agree up to ASCII case |
| `AnswerCache.GenerateCacheKey` | util/common.go:186-194 | the filled buffer is the type in two bytes, high byte first, and the lower-cased name |
| `AnswerCache.StoredWithoutOpt` | util/edns0.go:18-32 | what is stored is free of OPT records exactly when the response had at most one |
| `AnswerCache.RemoveOptCuts` | util/edns0.go:18-32 | exactly the first OPT record is taken out; all others stay in order |
| `AnswerCache.EntriesAreLatest` | resolver/caching_resolver.go:316-348 | over any history of responses, evictions and flushes an entry exists exactly when a kept response came after the last flush and was not evicted since; it is the latest one |
| `AnswerCache.HitsReplayLatest` | resolver/caching_resolver.go:204-263 | a question hits exactly when a kept response for its type and its name up to case is there and its time is not over; the hit replays rcode and, up to TTL and the OPT record, all records of the latest one, with TTLs aged by the time left; successes are never truncated or CD-flagged |
| `AnswerCache.LifetimeOf` | resolver/caching_resolver.go:321-381 | every response has such a time, so the law below leaves no response out |
| `AnswerCache.ServedExactlyWhile` | resolver/caching_resolver.go:204-381 | a complete and checked success hits exactly until its smallest clamped TTL (at most 2^31-1 seconds) is over, an empty success and a name error exactly until the negative caching time is, unless replaced, evicted or flushed; the hit replays that response |
| `AnswerCache.UnservedIsForgotten` | resolver/caching_resolver.go:316-348 | a truncated or CD-flagged success and every other return code leave the cache as it is |
| `AnswerCache.SuccessCountsDown` | resolver/caching_resolver.go:265-275 | a successful hit serves each clamped TTL less the smallest one plus the whole seconds left |
| `AnswerCache.FlushForgets` | resolver/caching_resolver.go:389-394 | nothing hits after a flush until it is stored again |
| `AnswerCache.SuccessIsNeverRaised` | resolver/caching_resolver.go:204-275 | no hit on a successful answer serves more than the clamped TTL, and the time left never exceeds the smallest one |
| `AnswerCache.NegativeIsRaisedIff` | resolver/caching_resolver.go:333-341 | a kept NXDOMAIN response is served with a raised TTL at some time if and only if the negative caching time has more seconds than the smallest clamped TTL; only a TTL of 2^32-1 cannot be raised |
| `AnswerCache.CachingResolver.FlushCaches` | resolver/caching_resolver.go:389-394 | the cache is that of the history with a flush at its end |
| `AnswerCache.CachingResolver.Evict` | cache/cache_interface.go:5-17 | an entry dropped by the cache itself is an eviction in the history |
| `AnswerCache.CachingResolver.PutInCache` | resolver/caching_resolver.go:321-348 | the cache is that of the history with this response at its end |
| `AnswerCache.CachingResolver.Resolve` | resolver/caching_resolver.go:204-245 | a question with a kept entry is served from the latest kept response for the same type and name up to case, and nothing changes; any other is passed on, answered with clamped TTLs, and its response joins the history |
| `AnswerCache.CachingResolver.StoreShared` | resolver/caching_resolver.go:177-194 | a response shared over Redis joins the history like any other |
| `Upstream.Format` | config/upstream.go:52-55 | a non-empty string of digits |
| `Upstream.DigitsOfFormat` | config/config.go:632-644 | reading a printed number gives it back |
| `Upstream.PortRoundTrip` | config/config.go:632-644 | `ConvertPort` inverts the printing of every 16-bit port |
| `Upstream.NetIsFound` | config/upstream.go:148-165 | the printed protocol prefix is recognised before any body, for all three protocols |
| `Upstream.PathIsFound` | config/upstream.go:135-146 | a path is cut off exactly where it was appended |
| `Upstream.AddressParses` | config/upstream.go:29-110 | a printed address splits back into host and port, bracketed IPv6 and omitted default ports included |
| `Upstream.ParsedIsWellFormed` | config/upstream.go:79-127 | nothing in a parsed upstream can be mistaken for a separator |
| `Upstream.PrintedParses` | config/upstream.go:29-62 | every well-formed upstream prints to a text that parses to it, without its common name |
| `Upstream.ParsePrintParse` | config/upstream.go:29-165 | the same for the upstream of every accepted text |
| `UpstreamForms.WrittenParses` | config/upstream.go:79-165 | every written form, with or without protocol, port, path and common name, parses to exactly its parts, with TCP and UDP and the ports 53, 853 and 443 as defaults; ports over 16 bits and hosts that are neither address nor domain are refused |
| `UpstreamForms.DomainForm` | config/upstream.go:11-12 | a domain is a label of letters, digits and inner hyphens, or a domain, a dot and a label |
| `ErrorBudget.SeriesParser.Next` | lists/parsers/parser.go:11-26 | yields the items in order, then its final error for ever |
| `ErrorBudget.ErrorFilter.constructor` | lists/parsers/filtererrors.go:30-46 | starts with an unused budget |
| `ErrorBudget.ErrorFilter.Next` | lists/parsers/filtererrors.go:71-92 | skips tolerated bad items; ends at the next good item, at the item that exhausts the budget, or at the end; every error is reported once |
| `ErrorBudget.StopsAfterLimit` | lists/parsers/filtererrors.go:30-46 | with limit n and a callback that refuses nothing, consumption stops early exactly when there are more than n bad items, and then at the (n+1)-th |
| `ErrorBudget.NoLimitConsumesAll` | lists/parsers/filtererrors.go:30-33 | without a limit everything is consumed |
| `ErrorBudget.GoodsInOrder` | lists/parsers/parser.go:35-59 | the good items keep their order and number, and so do the bad ones |
| `ErrorBudget.ForEach` | lists/parsers/parser.go:35-59 | the callback gets, in order, exactly the good items up to the stop; success exactly when the budget lasts, the callback refuses nothing and the series ends properly; a context that is done ends it early |
| `Races.WeightInRange` | resolver/parallel_best_resolver.go:255-263 | every weight lies in 1..60 |
| `Races.WeightIsMinutes` | resolver/parallel_best_resolver.go:255-263 | the weight is the whole minutes since the last error, at least 1, and 60 after an hour |
| `Races.WeightedRandom` | resolver/parallel_best_resolver.go:242-276 | the candidate list is never empty and the pick is not an excluded resolver |
| `Races.PickRandom` | resolver/parallel_best_resolver.go:231-240 | the requested number of different resolvers of the pool |
| `Races.EvaluateResponses` | resolver/parallel_best_resolver.go:187-209 | fails exactly if all results failed, and else returns the first success in the order of arrival |
| `Races.Resolve` | resolver/parallel_best_resolver.go:150-229 | tried resolvers are distinct; two are raced, or one is tried and another exactly if it failed; failure means that all tried ones failed |
| `Races.RaceClients` | resolver/upstream_resolver.go:213-268 | the first complete reply wins, else a truncated one, an error only if both fail, and then the one of the requested protocol; fixed in every case |

## Left out

- Matching and compiling of regular expressions, client name globs, CIDR containment and the addresses of
  client host names are parameters; `net.ParseIP` is a parameter of which only the characters it accepts
  are assumed.
- Random choice, arrival order and cancellation are nondeterministic; times are parameters.
- Float rounding of `Duration.Minutes` and `Duration.Seconds`: weights are computed over the reals, seconds are whole.
- Letter case outside ASCII, and escapes in `dns.Fqdn`.
- DNS wire packing and unpacking: cached messages are values.
- Reverse (PTR) answers of the custom mapping, and the filling of the mapping from the configuration.
- Lost or reordered Redis messages (each instance receives published messages in one order; publications of one
  instance may overtake each other), their JSON form, and the sharing of cached answers over Redis, which
  is a stored response like any other here.
- Requests that are excluded from caching, the prefetching reload, and the inside of the expiring cache,
  of which only put, get, clear and eviction appear.
- The handling of a single source inside a load: downloader, `parseFile` and the concurrent producers are
  reduced to the entries they bring and the way they ended.
- ListLoads.Loader.Consume: entries are consumed in one order; the interleaving of several producers of
  one group is the choice of that order.
- ListCache.ListCache.Match: asks the three members without a step of a load in between; what each member
  answers on its own is stated by RegexGroups, WildcardGroups and StringGroups.
- BlockingPolicy.BlockingResolver.Resolve: one question per request, its name already lower-cased and
  without its final dot, and one snapshot of the status; the block handlers that build the blocked answer
  are not part of this model.
- Races.Resolve: the bookkeeping of last error times is an input of the weights.
- Other resolvers, HTTP, API, CLI, server, configuration loading, metrics and logging: plumbing or thin
  branches that would only add easy members.
