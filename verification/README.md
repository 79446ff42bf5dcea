# Decoding, cookies, rate limiting and user input of the firewall, verified

This project models the parts of the firewall library that parse hostile input and keep per-client state, and proves
what they promise. Strings are sequences of UTF-16 code units, so lone surrogates are inputs like any other; objects
whose fields the library updates are classes; loops stay loops, each proved against a function or a predicate that
says what it computes.

**Percent decoding** (`Utf8Table`, `Utf8`, `UriComponent`, `UriRoundTrip`, `UriCanonical`, `UriHex`). The 376-entry
table is there number by number. Started in ACCEPT it returns to ACCEPT on exactly the byte strings of section 4 of
RFC 3629. The decoder with its index variables, its sentinel byte 255 and its surrogate arithmetic equals the
recursive Decode operation of section 19.2.6 of ECMA-262, undoes encodeURIComponent, and always shortens what it
decodes. A text is what encodeURIComponent makes of a string if and only if it decodes to the string and is in
canonical form. The digits of escapes are spelled out one by one, and their case never matters.

**Cookies** (`Cookies`, `CookieRoundTrip`, `CookieGrammar`). The scanner equals cutting at `;`, cutting at the first
`=`, trimming, unquoting and decoding, the first key winning. Two findings: the early return for strings shorter than
two changes the answer for the string `=` alone, and a cookie called `__proto__` is never stored. The round trip holds
if and only if neither of the two is met. `CookieGrammar` is a grammar of headers in which every string has a reading,
and the parser finds what the reading says.

**LRU map** (`LruSpec`, `LruMap`, `LruInclusion`, `LruRecency`). The doubly linked list and the hash map are one
sequence of entries from least to most recently touched. After any run they stand in the order of their last touch, a
set or a get that found the key, each holds what its key was last set to, and which keys are held is told operation by
operation. A smaller map holds a subsequence of what a larger one holds after any run.

**Sliding-window limiter** (`SlidingWindow`, `RateLimiter`, `Residency`, `LimiterRuns`, `LimiterTheorems`,
`LimiterGuarantees`, `LimiterIntervals`). A history is the sequence of all attempts on all keys; the limiter's class
carries it, and every verdict is a function of it. With a fixed window and limit for a key, an attempt is denied if
and only if the last maxRequests + 1 attempts of the key lie in its window and each but the first of them found the
log of the one before it. From this follow exactness, the throughput bound and the retry hint, each as long as the log
was not lost between the attempts it speaks of, whatever was lost before. Two findings: the comment at
`library/ratelimiting/RateLimiter.ts:33` says that the list exceeds maxRequests by only one, but it does so before the
push, so up to maxRequests + 2 timestamps are kept (`ThreeAreKept` is an input, `ExceedsByTwoIff` says exactly when);
and fewer than maxItems other keys since a key's last attempt do not make its verdict exact, because timestamps lost
earlier stay lost (`LossCarriesOver` is a run that shows it, `ExactIff` is the exact condition, and
`ExactWhenFewSince` the one a caller can check: fewer than maxItems other keys since the (maxRequests + 1)-th last
attempt). The told wait is a lower bound only: `DeniedIffCrowded` says when a retry succeeds, and `ToldWaitMayFail` is
a caller that waits as told and is denied again.

**User input** (`Values`, `UserInput`, `UserInputRoutes`). The extraction yields exactly the strings that a route of
steps through properties, array items and tokens leads to within the depth limit, so a deeper start only removes
strings.

**Request context** (`ContextSpec`, `ContextCache`). No sequence of runWithContext, updateContext and lookups gives an
answer that shows that there are caches, whatever they held when the context was entered.

**Path to a payload** (`AttackPath`, `AttackPathHits`, `AttackPathOrder`, `AttackPathText`). The search that stops
early returns the first matchCount paths of the exhaustive list; that list holds exactly the first matches on each way
down, in pre-order. The text of a path tells the path among all paths whose keys are not empty, hold no dot, do not
end in `<jwt>` and are no index in brackets. `KeyTellsIff` and `TextUniqueIff` say exactly which keys and which paths
have a text that no other path has.

**Choice of endpoint** (`StableSort`, `Endpoints`, `EndpointChoice`, `EndpointMeaning`). The three stable sorts,
filters and finds pick the least element of an order that is told from the configuration alone: the fewest requests
for the time, compared in whole numbers, then the most stars, then a method of its own, then the first place. Of
several endpoints with the request's own route only the first by method counts as an exact match, so an enabled `*`
endpoint without a wildcard in its route is hidden by a disabled one for the request's method (`HiddenByDisabled`).
Rates are JavaScript quotients: a window of 0 makes them infinite, or no number for 0 requests; `ConsistentIff` says
when the comparator of the last sort is then still consistent.

`Bits` and `Prelude` hold the bit operations and string built-ins that the rest uses.

## Model

| member | source | states |
|---|---|---|
| Utf8Table.TypeLookup | library/helpers/safeDecodeURIComponent.ts:9-20 | the lookup of a byte's type stays in the table and yields the class of the byte by its range |
| Utf8Table.TransitionLookup | library/helpers/safeDecodeURIComponent.ts:22-28 | the lookup of the next state stays inside the 376 entries for every state and type and yields the transition by case |
| Utf8Table.MaskLookup | library/helpers/safeDecodeURIComponent.ts:30-33 | the lookup of the payload mask stays in the table and yields the mask of the type |
| Utf8.AcceptsChar | library/helpers/safeDecodeURIComponent.ts:82-89 | the first return to ACCEPT completes exactly one character of RFC 3629, and the code point is its scalar value |
| Utf8.TableAccepts | library/helpers/safeDecodeURIComponent.ts:7-33 | run from ACCEPT the table ends in ACCEPT on exactly the well-formed byte strings: no overlong form, no surrogate, nothing above 0x10FFFF |
| Utf8.EncodeScalarOf | library/helpers/safeDecodeURIComponent.ts:7-33 | of the byte strings that are accepted as a character each is the only one for its scalar value: no overlong form |
| Utf8.InsideStep | library/helpers/safeDecodeURIComponent.ts:85-112 | within a character one byte completes it, leaves it open, or makes it impossible to continue to any character |
| UriComponent.HexByte | library/helpers/safeDecodeURIComponent.ts:82-84 | joining the two digits by a bitwise or yields the octet, or 255 when either digit is bad or missing |
| UriComponent.SentinelRejects | library/helpers/safeDecodeURIComponent.ts:118-121 | the byte 255 is rejected in every state, so a bad hex digit acts as an invalid byte |
| UriComponent.SurrogateArithmetic | library/helpers/safeDecodeURIComponent.ts:92-98 | shifting and masking yield the surrogate pair of a code point above 0xFFFF |
| UriComponent.FeedByte | library/helpers/safeDecodeURIComponent.ts:85-87 | the three table lookups take the automaton's step, without overflow of 32 bits |
| UriComponent.EscapeStep | library/helpers/safeDecodeURIComponent.ts:81-113 | what one escape does to the decoding: the remaining result is kept, or there is none |
| UriHex.OctetIff | library/helpers/safeDecodeURIComponent.ts:35-57 | an escape is an octet if and only if its two units are the digits of it in 0-9A-F or 0-9a-f |
| UriHex.DecodeVariant | library/helpers/safeDecodeURIComponent.ts:35-57 | changing the case of the digits of escapes never changes the result |
| UriComponent.SafeDecodeURIComponent | library/helpers/safeDecodeURIComponent.ts:67-116 | for every string the result is that of the Decode operation behind decodeURIComponent, undefined where that throws |
| UriRoundTrip.EncodeDefined | library/helpers/safeDecodeURIComponent.test.ts:13-19 | a string can be encoded if and only if its surrogates are paired |
| UriRoundTrip.DecodeEncode | library/helpers/safeDecodeURIComponent.ts:67-116 | decoding undoes encodeURIComponent on every well-formed UTF-16 string |
| UriRoundTrip.DecodeIffSpells | library/helpers/safeDecodeURIComponent.ts:67-116 | a string decodes to another if and only if it spells it in literal units and escaped UTF-8 characters |
| UriCanonical.EncodeIffCanonical | library/helpers/safeDecodeURIComponent.ts:67-116 | a text is the encoding of a string if and only if it decodes to it, leaves nothing but unreserved units unescaped, and escapes in capitals only what must be |
| UriRoundTrip.DecodeShortens | library/helpers/safeDecodeURIComponent.ts:81-115 | a decoded string is non-empty if its source was, never longer, and at least two units shorter if there was an escape |
| Cookies.StartIndex | library/helpers/parseCookies.ts:92-98 | the first position that is not blank, or max; never beyond it |
| Cookies.EndIndex | library/helpers/parseCookies.ts:100-106 | one past the last position that is not blank, or min |
| Cookies.TrimmedBounds | library/helpers/parseCookies.ts:64-71 | the two loops together trim a stretch of the string |
| Cookies.ReadValue | library/helpers/parseCookies.ts:70-81 | the value is the trimmed stretch without surrounding quotes; a single quote is both of them |
| Cookies.AssignOnce | library/helpers/parseCookies.ts:64-86 | a pair is added unless its key is there already, and what remains are the pairs after it |
| Cookies.StartOfPair | library/helpers/parseCookies.ts:58-62 | the backtracking branch skips only pieces without an equals sign and strictly advances |
| Cookies.Advance | library/helpers/parseCookies.ts:46-87 | every turn of the loop but the last advances, past pieces without a pair or past one pair that it adds |
| Cookies.Parse | library/helpers/parseCookies.ts:36-90 | the scanner's result is that of cutting, trimming, unquoting and decoding |
| Cookies.ShortStrings | library/helpers/parseCookies.ts:39-43 | the early return agrees with the split specification if and only if the string is not a lone equals sign |
| CookieGrammar.ReadHeader | library/helpers/parseCookies.ts:36-90 | every string can be read as pieces: some text without an equals sign, or a key and a bare or quoted value with blanks around them |
| CookieGrammar.ParsedIsSaid | library/helpers/parseCookies.ts:13-90 | the parser finds what a reading says: the first value of each key but `__proto__`, decoded, or as it is written when it does not decode |
| CookieGrammar.OnePair | library/helpers/parseCookies.ts:21-27 | a single pair with a bare value is stored decoded, or as it is when it does not decode |
| CookieRoundTrip.ParsePrinted | library/helpers/parseCookies.ts:36-90 | parsing a printed list stores the first value of each key, decoded |
| CookieRoundTrip.RoundTrip | library/helpers/parseCookies.ts:13-90 | printing and parsing give the map back if and only if no key is `__proto__` and the text is not a lone equals sign |
| LruMap.NewLRUMap | library/ratelimiting/LRUMap.ts:16-30 | construction fails if and only if the capacity or the time-to-live is negative |
| LruMap.LRUMap.constructor | library/ratelimiting/LRUMap.ts:25-29 | a new map is valid and empty |
| LruMap.LRUMap.Relink | library/ratelimiting/LRUMap.ts:41-61 | the pointer surgery of a bump leaves a chain that is its own reverse, with the item at the end |
| LruMap.LRUMap.BumpLru | library/ratelimiting/LRUMap.ts:36-62 | the item moves to the end of the sequence, all else keeps its order |
| LruMap.LRUMap.Clear | library/ratelimiting/LRUMap.ts:64-68 | the map is empty |
| LruMap.LRUMap.Size | library/ratelimiting/LRUMap.ts:32-34 | the size of the hash map is the length of the sequence |
| LruMap.LRUMap.Unlink | library/ratelimiting/LRUMap.ts:76-90 | the chain without the item is a chain from first to last |
| LruMap.LRUMap.Delete | library/ratelimiting/LRUMap.ts:70-92 | the entry of the key is gone, the others keep their order |
| LruMap.LRUMap.Evict | library/ratelimiting/LRUMap.ts:94-108 | exactly the least recently touched entry is gone |
| LruMap.LRUMap.Get | library/ratelimiting/LRUMap.ts:110-124 | the value unless absent or expired; an expired entry is deleted, a fresh one becomes the most recent |
| LruMap.LRUMap.Set | library/ratelimiting/LRUMap.ts:130-167 | the entry with its new expiry is the most recent; a new key in a full map costs the least recent entry |
| LruMap.LRUMap.EntriesDistinct | library/ratelimiting/LRUMap.ts:9-14 | no key is chained twice |
| LruRecency.Described | library/ratelimiting/LRUMap.ts:64-167 | after any run the entries stand in the order of their last touch, a set or a get that found the key, with the value and expiry of the last set |
| LruRecency.GetYields | library/ratelimiting/LRUMap.ts:110-124 | a get yields what the key was last set to if it is held and that is younger than the time-to-live |
| LruRecency.HeldAfter | library/ratelimiting/LRUMap.ts:64-167 | which keys are held after an operation: a set into a full map costs exactly the key touched longest ago, a get only an expired one |
| LruInclusion.ApplyKeeps | library/ratelimiting/LRUMap.ts:64-167 | every operation keeps keys distinct and the size within the capacity |
| LruInclusion.Inclusion | library/ratelimiting/LRUMap.ts:94-167 | after any run of the same operations the smaller map's recency list is a subsequence of the larger's, with equal values and expiries |
| LruInclusion.HitsAgree | library/ratelimiting/LRUMap.ts:94-167 | a bounded map never disagrees with a larger or unbounded one on a key it still holds |
| RateLimiter.NewRateLimiter | library/ratelimiting/RateLimiter.ts:13-18 | construction fails where that of the map does |
| RateLimiter.RateLimiter.constructor | library/ratelimiting/RateLimiter.ts:13-18 | a new limiter holds no log |
| LimiterRuns.LoggedKeeps | library/ratelimiting/RateLimiter.ts:29-42 | a timestamp stays if and only if it is in the window and among the last maxRequests + 1 of a sorted log; the current time is added last |
| LimiterRuns.WaitIsLeast | library/ratelimiting/RateLimiter.ts:47-59 | allowed if and only if the log fits; else the seconds told are the fewest after which the oldest kept timestamp is as old as the window |
| RateLimiter.RateLimiter.Admit | library/ratelimiting/RateLimiter.ts:25-59 | verdict and new entries are those of one step on the sequence of entries, and the map holds its old items and new ones only |
| RateLimiter.RateLimiter.IsAllowed | library/ratelimiting/RateLimiter.ts:20-60 | the verdict is the outcome of the whole history of attempts up to this one, and the store stays the one that history leaves, with old items and new ones only |
| RateLimiter.AllowAll | library/ratelimiting/RateLimiter.ts:20-60 | a run of calls on one limiter yields for every attempt the outcome of the history up to it |
| Residency.HoldsIffRetained | library/ratelimiting/LRUMap.ts:94-167 | the store holds a key if and only if fewer than maxItems other keys were used since its last attempt |
| LimiterTheorems.FoundIffLinked | library/ratelimiting/RateLimiter.ts:26 | a log is found if and only if it was neither evicted nor expired |
| LimiterTheorems.StoredIsNewest | library/ratelimiting/RateLimiter.ts:29-45 | the stored log is exactly the last maxRequests + 2 of the log that would be kept without truncation |
| LimiterTheorems.ExceedsByTwoIff | library/ratelimiting/RateLimiter.ts:33-42 | at most maxRequests + 2 timestamps are stored, but always the current one, and more than maxRequests + 1 if and only if that many last attempts lie in the window, each finding the log of the one before, or maxRequests is negative |
| LimiterGuarantees.ThreeAreKept | library/ratelimiting/RateLimiter.ts:33-42 | three attempts at once with a limit of 1 leave three timestamps stored |
| LimiterTheorems.AllowedIffLiveFits | library/ratelimiting/RateLimiter.ts:33-49 | truncation never changes a verdict |
| LimiterTheorems.DeniedIff | library/ratelimiting/RateLimiter.ts:20-60 | for every capacity and time-to-live the exact condition under which an attempt is denied |
| LimiterGuarantees.DeniedByFullLog | library/ratelimiting/RateLimiter.ts:26-59 | whatever the capacity, the time-to-live and the windows and limits of the calls, a denied attempt would be denied by the full log |
| LimiterGuarantees.ExactIff | library/ratelimiting/RateLimiter.ts:26-49 | the verdict is that of the full log if and only if no link between the last maxRequests + 1 attempts is broken when more than maxRequests lie in the window |
| LimiterGuarantees.ExactWithoutEviction | library/ratelimiting/RateLimiter.ts:20-49 | with window < time-to-live and no eviction of the key the stored log is the last maxRequests + 2 attempts in the window, and an attempt is allowed if and only if at most maxRequests lie in it |
| LimiterGuarantees.FewKeysNeverEvicted | library/ratelimiting/LRUMap.ts:145-148 | no key is evicted while at most maxItems keys are in use, or without a bound |
| LimiterGuarantees.LossCarriesOver | library/ratelimiting/LRUMap.ts:94-108 | a run in which no other key than one was used since, and the verdict is still not that of the full log |
| LimiterIntervals.ExactWhenFewSince | library/ratelimiting/LRUMap.ts:94-148 | with window < time-to-live a verdict is that of the full log when fewer than maxItems other keys were used since the (maxRequests + 1)-th last attempt of the key |
| LimiterIntervals.ThroughputBound | library/ratelimiting/RateLimiter.ts:29-49 | in every closed interval as long as the window at most maxRequests attempts of a key are allowed, if its log was not lost between two attempts made in the interval |
| LimiterIntervals.ThroughputWithoutEviction | library/ratelimiting/RateLimiter.ts:29-49 | the same in every interval when the key is never evicted and window < time-to-live |
| LimiterIntervals.RetryHintRange | library/ratelimiting/RateLimiter.ts:51-59 | the wait lies between 0 and the window, and the seconds are its ceiling |
| LimiterIntervals.RetryHintIsLowerBound | library/ratelimiting/RateLimiter.ts:33-58 | every attempt of the key until the end of the wait is denied too, whatever comes in between, if its log was not lost since its oldest timestamp |
| LimiterIntervals.HintWithoutEviction | library/ratelimiting/RateLimiter.ts:33-58 | the same whatever comes in between when the key is never evicted and window < time-to-live |
| LimiterIntervals.DeniedIffCrowded | library/ratelimiting/RateLimiter.ts:29-58 | with window < time-to-live and no eviction an attempt is denied if and only if the attempt maxRequests places before it is still in its window |
| LimiterIntervals.ToldWaitMayFail | library/ratelimiting/RateLimiter.ts:51-59 | a denied caller that makes its next attempt exactly after the told seconds is denied again |
| UserInput.AgainShortens | library/helpers/extractStringsFromUserInput.ts:80-88 | a decoding of a string with an escape is non-empty and at least two units shorter, so neither the empty nor the unchanged test fires |
| UserInput.IteratesAre | library/helpers/extractStringsFromUserInput.ts:77-93 | the variants are exactly the first at most n successive decodings |
| UserInput.IteratesSettle | library/helpers/extractStringsFromUserInput.ts:79 | the loop would stop without its cap: after half the length nothing is left to decode |
| UserInput.AddURLDecodedVariants | library/helpers/extractStringsFromUserInput.ts:77-93 | exactly the first at most five successive decodings are added |
| UserInput.WithoutKeyHolds | library/helpers/extractStringsFromUserInput.ts:60-62 | deleting the issuer leaves all other properties of a token |
| UserInput.AddAllButUrls | library/helpers/extractStringsFromUserInput.ts:63-70 | the strings of a token are added except those that start with http and parse as URLs |
| UserInput.ExtractStringsFromUserInput | library/helpers/extractStringsFromUserInput.ts:16-75 | the set the recursion over the value, its tokens and its depth collects |
| UserInputRoutes.ExtractIff | library/helpers/extractStringsFromUserInput.ts:16-75 | a string is extracted if and only if a route within 1024 levels of the raw value leads to a key, a non-empty string or one of its first five decodings, or an array that joins to it; issuers and URLs of tokens are left out |
| UserInputRoutes.JoinedIsExtracted | library/helpers/extractStringsFromUserInput.ts:41-46 | the text an array joins to is extracted |
| UserInputRoutes.DeeperExtractsLess | library/helpers/extractStringsFromUserInput.ts:18-24 | a deeper start only removes strings |
| ContextSpec.UnionAre | library/helpers/extractStringsFromUserInputCached.ts:14-24 | the user strings are those of some truthy source |
| ContextSpec.AttributedIff | library/helpers/getSourceForUserString.ts:9-21 | a source is found if and only if the string is among the user strings |
| ContextSpec.AttributedToFirst | library/helpers/getSourceForUserString.ts:9-19 | the source found is the first in the order of SOURCES that has the string |
| ContextSpec.AllStringsIff | library/helpers/extractStringsFromUserInputCached.ts:14-24 | the user strings are those extracted from the eleven sources, each by its name |
| ContextSpec.AttributedInOrder | library/helpers/getSourceForUserString.ts:9-21 | a string is attributed to the first of the eleven sources, each by its name, that it is extracted from |
| ContextSpec.PathStringsIff | library/helpers/extractPathStringsFromUserInputCached.ts:16-31 | the path strings are the user strings with a separator in them |
| ContextSpec.CachesFilled | library/agent/Context.ts:62-69 | a lookup leaves its cache filled, an update of one of the eleven sources drops both caches, any other leaves them |
| ContextSpec.SourcesCopied | library/agent/Context.ts:85-100 | every source is copied when a context is entered |
| ContextSpec.EnteredGet | library/agent/Context.ts:85-103 | what is copied comes from the given context, what the firewall noted stays, and bypassRequest is taken over unless it is undefined or null |
| ContextSpec.EnteredStrings | library/agent/Context.ts:84-107 | the user strings of the context become those of the given one |
| ContextSpec.CoherenceKept | library/agent/Context.ts:57-120 | every operation keeps the caches equal to what would be computed afresh, and answers as without them |
| ContextSpec.CachesAreInvisible | library/agent/Context.ts:57-120 | over every sequence of operations the answers are those of a context without caches, whatever its caches held before it was entered |
| ContextCache.UpdateContext | library/agent/Context.ts:57-70 | the property is set, and the caches are dropped if and only if it is a source |
| ContextCache.RunWithContext | library/agent/Context.ts:79-120 | the context the function runs in, its properties and its empty caches, also when both contexts are the same object |
| ContextCache.ExtractFromSources | library/helpers/extractStringsFromUserInputCached.ts:14-24 | the loop over the sources computes the union of their strings |
| ContextCache.ExtractStringsFromUserInputCached | library/helpers/extractStringsFromUserInputCached.ts:7-29 | the cached set, or the union over all sources, which is then cached |
| ContextCache.ExtractPathStringsFromUserInputCached | library/helpers/extractPathStringsFromUserInputCached.ts:8-35 | the same for the strings that contain the path separator |
| ContextCache.GetSourceForUserString | library/helpers/getSourceForUserString.ts:5-22 | the search answers with the first source that has the string and never consults a cache |
| AttackPath.Matches.constructor | library/helpers/attackPath.ts:40-47 | an accumulator with room for max paths |
| AttackPath.Matches.Add | library/helpers/attackPath.ts:49-51 | the text of the path is appended |
| AttackPath.Traverse | library/helpers/attackPath.ts:70-119 | the search adds the first of the exhaustive list's paths for which there is room |
| AttackPath.TraverseItems | library/helpers/attackPath.ts:101-107 | the same for the items of an array up to index 100 |
| AttackPath.TraverseFields | library/helpers/attackPath.ts:110-118 | the same for the properties of an object |
| AttackPath.GetPathsToPayload | library/helpers/attackPath.ts:62-124 | the texts of the first matchCount paths of the exhaustive list; fails if and only if matchCount is below 1 |
| AttackPathHits.ListedIff | library/helpers/attackPath.ts:70-119 | a path is listed if and only if it leads, at most 30 steps deep and within the first 101 items of arrays, to a string or an array of 2 to 99 items that is the payload in lower case, and through none |
| AttackPathHits.FoundIff | library/helpers/attackPath.ts:62-124 | the result is non-empty if and only if a match exists within the limits |
| AttackPathText.KeyTellsIff | library/helpers/attackPath.ts:18-38 | a top-level key has a text that no other path has if and only if it is not empty, holds no dot, is no index in brackets and does not end in the text of a token |
| AttackPathText.TextUniqueIff | library/helpers/attackPath.ts:18-38 | a path has a text that no other path has if and only if it is tokens only, or tokens and such a last key |
| AttackPathText.LooksLikeIndexIff | library/helpers/attackPath.ts:32-34 | a key is the text of an index in brackets if and only if it is digits in brackets without leading zeros |
| AttackPathText.PathTextTells | library/helpers/attackPath.ts:18-38 | paths whose keys all meet that condition have the same text if and only if they are the same |
| AttackPathText.OddKeys | library/helpers/attackPath.ts:18-38 | an empty key has the text of the root, and a key written like an index that of the index |
| AttackPathOrder.InOrder | library/helpers/attackPath.ts:101-117 | of two listed paths the earlier one turns to an earlier item or property where they part |
| StableSort.SortPermutes | library/helpers/matchEndpoints.ts:25-35 | sorting permutes |
| StableSort.SortOrders | library/helpers/matchEndpoints.ts:25-53 | sorting orders by the comparator and leaves what it does not tell apart in its order |
| Endpoints.MatchEndpoints | library/helpers/matchEndpoints.ts:7-70 | the matches: the first with the request's own route, then the fitting wildcards by number of stars |
| EndpointChoice.MatchingIs | library/helpers/matchEndpoints.ts:16-69 | an endpoint is matched if and only if its method fits and it is the first with the own route or a wildcard that fits the path |
| EndpointChoice.ExactHides | library/helpers/matchEndpoints.ts:39-42 | a fitting endpoint with the own, plain route is matched if and only if no other fitting one with that route precedes it by method and place, enabled or not |
| EndpointChoice.HiddenByDisabled | library/helpers/matchEndpoints.ts:39-42 | two endpoints and a request for which the enabled one fits and no match is enabled |
| EndpointChoice.MatchingInOrder | library/helpers/matchEndpoints.ts:37-69 | after the exact match the wildcards stand by stars, then exact method, then configuration order |
| EndpointChoice.OwnRouteFirst | library/ratelimiting/getRateLimitedEndpoint.ts:17-21 | of the enabled matches with the own route the one found is the least by method and place |
| EndpointChoice.LeastRate | library/ratelimiting/getRateLimitedEndpoint.ts:23-30 | the first after the sort has the least rate, finite or not, ties going to more stars, exact method, configuration order |
| EndpointChoice.TiedIff | library/ratelimiting/getRateLimitedEndpoint.ts:23-28 | the comparator ties two endpoints if and only if their rates are equal or one is NaN |
| EndpointChoice.ConsistentIff | library/ratelimiting/getRateLimitedEndpoint.ts:23-28 | the comparator by rate is consistent if and only if every rate is a number or all rates tie, as NaN does with any |
| EndpointChoice.LeastStars | library/ratelimiting/getRateLimitedEndpoint.ts:23-30 | when all rates tie the first after the sort is the one with the most stars, then exact method, then configuration order |
| EndpointMeaning.MatchesIff | library/helpers/matchEndpoints.ts:16-69 | the same matches in terms of the literal method, route, URL and places |
| EndpointMeaning.ChargedToNone | library/ratelimiting/getRateLimitedEndpoint.ts:9-15 | none is charged if and only if no match has rate limiting that is enabled |
| EndpointMeaning.ChargedToOwnRoute | library/ratelimiting/getRateLimitedEndpoint.ts:17-21 | with an enabled match on the own route the one charged has it too, and comes first by method and place |
| EndpointMeaning.ChargedToStrictest | library/ratelimiting/getRateLimitedEndpoint.ts:23-30 | else, with windows, the cross product of maxRequests and windowSizeInMS is least, ties going to more stars, one method, configuration order |
| EndpointMeaning.WithoutWindow | library/ratelimiting/getRateLimitedEndpoint.ts:23-28 | how an endpoint with a window of 0 compares with one that has a window |
| EndpointChoice.GetRateLimitedEndpoint | library/ratelimiting/getRateLimitedEndpoint.ts:5-31 | undefined if and only if no match is enabled; else the first enabled match with the own route, or, whenever the comparator is consistent, the least of all enabled matches by rate, stars, method and place |

## Left out

- Time and numbers: times are reals and maxRequests is an integer; floating-point rounding, NaN and infinities are not modelled.
- RateLimiter.RateLimiter.Admit: takes the time as one argument, where the code reads the clock up to three times in a call.
- LruMap.LRUMap.Set: does not model the insertion order of the hash map, so `keys()` is not part of this model.
- LruMap.NewLRUMap: takes an integer capacity; a fractional or NaN one is not modelled.
- EndpointChoice.GetRateLimitedEndpoint: says only that some enabled match is chosen when none has the own route, one allows 0 requests in a window of 0 and two others have different rates, because the comparator is then inconsistent and ECMA-262 leaves the order to the implementation; identifies an endpoint by its place in the configuration; rates are not rounded.
- Endpoints.MatchEndpoints: takes the path of a URL and the test of a wildcard route against a path as arbitrary functions; regular expressions and URL parsing are not part of this model.
- UserInput.ExtractStringsFromUserInput: takes token decoding, array joining and URL parsing as arbitrary functions; a value is a finite tree, so cyclic objects are not modelled.
- AttackPath.GetPathsToPayload: takes lower-casing as an arbitrary function too, and the failure of the constructor of Matches is told by its caller.
- ContextCache.UpdateContext: the two caches are no properties to update by key, and changes an application makes inside a stored value are not seen, as the caches do not see them either.
- ContextCache.RunWithContext: yields the context the function would run in; the function itself, asynchronous storage and bindContext are not part of this model.
- Cookies.Parse: the object is a map, so the order of its properties is not modelled.
- Some loop bodies and branches are methods of their own, with a contract each.
- Rate-limit keys are opaque; how shouldRateLimitRequest builds them and its one-charge flag would only add easy members.
- Sinks, sources, hooks, attack detectors, IP matching, statistics and the transformer are not part of this model.
