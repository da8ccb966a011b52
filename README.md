# Gardesh itinerary core, modelled in Dafny

Gardesh suggests a short city tour from a free-text request. A language model turns the
request into a list of *place infos*: a wanted place type (museum, historical site,
restaurant) plus tags relevant to it. Three embedded catalogs of places are then searched
with these infos. This project models the logic that runs after the language model has
answered:

- **Places** (`places.dfy`): the three place types and their fixed Persian labels, parsed
  and printed through one table. A place's identity is its title and type only (the
  free-text `category` field plays no part), and hashing uses the same two fields. Also the
  tag-overlap score.
- **Itinerary** (`itinerary.dfy`, with `product.dfy` and `stable_sort.dfy`): the desktop
  back end's `do_the_job` selector. It works in five steps:
  1. Score every place of the requested type by tag overlap, keeping the positive scores.
  2. Drop the requests that found nothing.
  3. Form every one-place-per-request combination, in `multi_cartesian_product` order.
  4. Rank the combinations stably by
     `0.7 · route / 20 − 0.3 · mean((score − 1) / 3)`, where the route is the closed round trip
     through the stops.
  5. Return the places of the head.
- **Suggestions** (`suggestions.dfy`, with `machine_int.dfy`): the web front end.
  - It concatenates all catalogs.
  - It builds one `Suggestion` per request: the places of the right type sharing a tag, with the first one selected.
  - The `next` / `prev` buttons move the selection in place. Their index arithmetic is modelled as written: `isize`/`usize` on a 32-bit target, Rust's truncating `%`, and the wrapping `as usize` cast.
- **Rag** (`rag.dfy`): the helpers of the retrieval prototype. These are character
  chunking, the bounded conversation history, and the placeholder retrieval step.

Four behaviours of the code are worth stating outright:
- The selector drops the requests that have no candidates, so an itinerary may cover only some of the requests.
- Combinations are not de-duplicated.
- The score counts tag entries, not distinct tags: a tag a place lists twice counts twice.
- In the front end, an empty candidate list panics at `f[0]`; the model returns an error result there.

The great-circle distance is a parameter `dist` of the selector, and no property of it
is relied on. Floating-point numbers are modelled as reals.

## Model

| member | source | states |
|---|---|---|
| Places.ParseLabel | src/lib.rs:61-71 | parsing accepts exactly the three labels: a parsed label prints back as itself; any other string fails |
| Places.LabelsDistinct | src/lib.rs:61-71 | the three labels are pairwise distinct |
| Places.LabelRoundTrip | src/lib.rs:61-71 | parsing a type's label gives the type back, and it is the only string that does. The back end's (src-tauri/src/lib.rs:41-51) and the older front end's (src/app.rs:82-92) copies of the table are the same. |
| Places.SamePlace | src/lib.rs:101-105 | two places are equal exactly when their (title, type) keys, the fields the hash is fed, are equal. The older front-end copy (src/app.rs:122-126) is the same. |
| Places.SamePlaceHashesEqual | src/lib.rs:94-99 | equal places hash equally under every hasher, since only title and type are fed to it |
| Places.SamePlaceIsEquivalence | src/lib.rs:92-105 | place equality is reflexive, symmetric and transitive, as `Eq` requires |
| Places.SamePlaceIgnoresDetails | src/lib.rs:101-105 | changing category text, region, neighbourhood, location or tags never changes equality |
| Places.SameScoringIgnoresDetails | src/lib.rs:42-46 | scored places are equal when their places have the same identity and their scores agree |
| Places.CountShared | src-tauri/src/lib.rs:313-316 | the score is at most the number of the place's tags, and positive exactly when some tag is wanted; its value is given by `CountSharedCountsPositions` |
| Places.CountSharedCountsPositions | src-tauri/src/lib.rs:314 | the score is the number of positions of the place's tag list whose tag the request mentions, so a repeated tag counts once per occurrence |
| Places.Score | src-tauri/src/lib.rs:314 | a place's score for a request is at most its number of tags, and positive exactly when one of its tags is among the request's tags; its value is given by `CountSharedCountsPositions` |
| Places.CountSharedIsIntersectionSize | src-tauri/src/lib.rs:313-316 | for a place listing each tag once, the score is the size of the tag-set intersection |
| Itinerary.CatalogFor | src-tauri/src/lib.rs:309-337 | the catalog is one of the three, and over catalogs whose files hold only their own type every place it offers has the requested type |
| Itinerary.Candidates | src-tauri/src/lib.rs:309-338 | every kept candidate comes from the catalog, carries its own score, and has score at least 1 |
| Itinerary.CandidatesComplete | src-tauri/src/lib.rs:309-338 | every catalog place with a positive score is kept with its score |
| Itinerary.CandidatesKeepOrder | src-tauri/src/lib.rs:309-338 | the candidates keep the catalog's order |
| Itinerary.CandidatesCount | src-tauri/src/lib.rs:309-338 | each place scoring above zero occurs among the candidates as often as in the catalog; no other place occurs |
| Itinerary.AllCandidateLists | src-tauri/src/lib.rs:304-338 | one candidate list per request; each entry is a place of the catalog of that request's type, carrying its score for that request, which is at least 1 |
| Itinerary.SurvivingLists | src-tauri/src/lib.rs:339-340 | the surviving lists are at most as many as the requests, none is empty, and every score is at least 1 |
| Itinerary.SurvivorsComeFromRequests | src-tauri/src/lib.rs:339-340 | each surviving list is the candidate list of some request |
| Itinerary.SurvivorsComplete | src-tauri/src/lib.rs:339-340 | every non-empty candidate list survives |
| Itinerary.SurvivorsKeepOrder | src-tauri/src/lib.rs:339-340 | the surviving lists keep the order of the requests |
| Product.MultiCartesianProduct | src-tauri/src/lib.rs:345 | the product has as many combinations as the product of the list lengths, each taking one element from each list |
| Product.ProductIsAllChoices | src-tauri/src/lib.rs:345 | a sequence is a combination exactly when it takes one element from each list |
| Product.CombosOrder | src-tauri/src/lib.rs:345 | the k-th combination takes from list i the element at digit i of k in the mixed radix of the list lengths, the last list varying fastest |
| Product.ProductSizePositive | src-tauri/src/lib.rs:339-345 | the product is non-empty exactly when every list is non-empty |
| Itinerary.LegsFrom | src-tauri/src/lib.rs:350-355 | the legs from a stop to the end sum to zero past the last stop, and are never negative when no distance is |
| Itinerary.RouteLength | src-tauri/src/lib.rs:350-355 | the round-trip length is zero for no stops, and never negative when no distance is |
| Itinerary.RouteIsClosedTour | src-tauri/src/lib.rs:350-355 | the route is the open path plus the leg from the last stop back to the first; one stop gives dist(a0, a0) |
| Itinerary.LegsFromIsOpenPathPlusReturn | src-tauri/src/lib.rs:350-355 | the legs from stop i on are the open path from i plus the closing leg |
| Itinerary.ScoreTermSumIsShiftedTotal | src-tauri/src/lib.rs:363-366 | `score - 1` never underflows, and the summed terms are (total score − count) / 3 |
| Itinerary.MeanScore | src-tauri/src/lib.rs:363-366 | the normalised mean is (total score − count) / (3 · count), never negative since every score is at least 1 |
| Itinerary.Cost | src-tauri/src/lib.rs:357-370 | the cost is 0.035 per unit of route length less 0.1 per point of total score above one per stop, averaged over the stops |
| Itinerary.CostMonotone | src-tauri/src/lib.rs:348-371 | for equal-size combinations, a route no longer and a total score no lower never cost more; strict on either |
| StableSort.Sort | src-tauri/src/lib.rs:347 | the sorted sequence is a permutation of the input, ordered by the key |
| StableSort.SortHeadIsFirstMin | src-tauri/src/lib.rs:347-374 | the head of the stable sort is the earliest element of least key |
| StableSort.FirstMinIndex | src-tauri/src/lib.rs:347-374 | the index of the earliest element of least key |
| StableSort.FirstMinIsUnique | src-tauri/src/lib.rs:347-374 | that index is unique |
| Itinerary.RankableCombos | src-tauri/src/lib.rs:339-374 | with at least one survivor the product is non-empty and every combination has a defined cost, so the `unwrap` cannot fail |
| Itinerary.DoTheJob | src-tauri/src/lib.rs:304-377 | no result exactly when nothing survives; otherwise one place per surviving request, each drawn from that request's candidates |
| Itinerary.DoTheJobPicksEarliestCheapest | src-tauri/src/lib.rs:347-377 | the result is the places of the earliest combination, in product order, whose cost is no greater than any other's |
| Itinerary.NoSelectionIffNoCandidates | src-tauri/src/lib.rs:339-374 | the selection gives up exactly when no request has a candidate |
| Itinerary.BetterMuseumWinsAtZeroDistance | src-tauri/src/lib.rs:304-377 | one museum and one restaurant request, two museum candidates and one restaurant candidate, zero distances: the strictly better-scored museum is chosen, with the restaurant |
| Itinerary.TwoMuseumsOneRestaurant | src-tauri/src/lib.rs:304-377 | museums tagged {a,b} and {a}, a restaurant tagged {c}, zero distances: the better-scored museum and the restaurant are chosen |
| Suggestions.AllPlaces | src/lib.rs:384-392 | the flat list's length is the sum of the three catalog sizes |
| Suggestions.AllPlacesLayout | src/lib.rs:384-392 | historical sites come first, then museums, then restaurants, each at its offset |
| Suggestions.AllPlacesMembers | src/app.rs:694-702 | a place is in the flat list exactly when it is in one of the catalogs |
| Suggestions.Matches | src/lib.rs:401-403 | the front-end filter keeps a place exactly when its type is the wanted one and its back-end score is at least 1 |
| Suggestions.MatchingPlaces | src/lib.rs:398-410 | the candidates are exactly the matching places, in catalog order |
| Suggestions.MatchingPlacesCount | src/lib.rs:398-410 | a matching place occurs among the candidates as often as in the flat list; no other place occurs |
| Suggestions.SuggestionsFor | src/lib.rs:394-411 | one suggestion per request whose places are its matches and whose selection is the first; otherwise an error at the first request without a match. The older front-end copy (src/app.rs:704-722) builds them the same way. |
| Suggestions.AskAi | src/lib.rs:384-411 | on success a suggestion's places are exactly the catalog places of the wanted type scoring at least 1 |
| Suggestions.AskAiSelectsFirst | src/lib.rs:411 | every built suggestion selects its first candidate, which is found at index 0 |
| Suggestions.AskAiKeepsOrder | src/lib.rs:398-410 | each suggestion's places keep the catalogs' order |
| Suggestions.Position | src/lib.rs:206-208 | the first index holding a place equal to the selection; none exactly when no place is equal |
| Suggestions.PositionOfDistinct | src/lib.rs:206-208 | among distinct places, each is found at its own index |
| MachineInt.RemTruncating | src/lib.rs:211 | Rust's signed `%`: smaller than the divisor in magnitude, sign of the dividend, differs from it by a multiple of the divisor |
| MachineInt.AsUsize | src/lib.rs:211 | `as usize` gives the value congruent modulo 2^32, and keeps non-negative values |
| MachineInt.MinusOneAsUsize | src/lib.rs:220 | -1 cast to `usize` is 2^32 − 1 |
| Suggestions.NextIndex | src/lib.rs:209-211 | `next` moves one step forward and wraps from the last index to 0 |
| Suggestions.PrevIndex | src/lib.rs:218-220 | `prev` moves one step back from index ≥ 1; from 0 it lands on (2^32 − 1) mod len |
| Suggestions.PrevFromFirstIsLastIffPowerOfTwo | src/lib.rs:218-220 | from index 0 `prev` reaches the last index exactly when the length is a power of two |
| Suggestions.PrevFromFirstOfThreeStays | src/lib.rs:218-220 | with three places `prev` from index 0 stays at 0, where the wrap-around would give 2 |
| Suggestions.NextThenPrevIndex | src/lib.rs:205-222 | `next` then `prev` returns to the start exactly when not starting from the last index, or when the length is a power of two |
| Suggestions.PrevCyclicIndex | src/lib.rs:218-220 | the intended `prev`: one step back, wrapping from index 0 to the last |
| Suggestions.NextThenPrevCyclicIndex | src/lib.rs:205-222 | with the intended `prev`, `next` and `prev` undo each other |
| Suggestions.NextSelection | src/lib.rs:205-213 | `next` panics exactly when the selection is not among the places; otherwise it selects one of the places |
| Suggestions.PrevSelection | src/lib.rs:214-222 | `prev` panics exactly when the selection is not among the places; otherwise it selects one of the places |
| Suggestions.PrevCyclicSelection | src/lib.rs:214-222 | the intended `prev` has the same panic condition and also selects one of the places |
| Suggestions.NextThenPrevCyclicRestores | src/lib.rs:205-222 | with distinct places, the intended `prev` after `next` restores the selection |
| Suggestions.NextThenPrevFromLast | src/lib.rs:205-222 | with distinct places, `next` then `prev` from the last place restores it exactly when the count is a power of two |
| Suggestions.SuggestionField.constructor | src/lib.rs:195-199 | a field holds a suggestion's places and selection |
| Suggestions.SuggestionField.FindSelected | src/lib.rs:206-208 | the scan returns the first position equal to the selection, or none |
| Suggestions.SuggestionField.Next | src/lib.rs:205-213 | on a missing selection, panics and changes nothing; otherwise selects the `next` place, keeps the places, and the selection stays among them. The older front-end copy (src/app.rs:226-234) is the same. |
| Suggestions.SuggestionField.Prev | src/lib.rs:214-222 | on a missing selection, panics and changes nothing; otherwise selects the place `prev` computes as written, keeps the places, and the selection stays among them. The older front-end copy (src/app.rs:235-243) is the same. |
| Suggestions.SuggestionField.PrevCyclic | src/lib.rs:214-222 | the corrected `prev`: the same panic and frame, selecting the cyclically previous place |
| Rag.Chunks | src/groq_impl.rs:48-55 | the chunks concatenate to the text; each has 1 to size characters, and all but the last have exactly size |
| Rag.SplitTextIntoChunks | src/groq_impl.rs:48-55 | a chunk size of 0 panics; otherwise the chunks concatenate to the text, all but the last are full, and the last is non-empty; empty text gives no chunk |
| Rag.ChunkCount | src/groq_impl.rs:48-55 | there are ⌈n / size⌉ chunks |
| Rag.MaintainConversationalContext | src/groq_impl.rs:87-97 | below the bound, the response is appended; at or above it the oldest entry is dropped first; the newest entry is the response, and a bound ≥ 1 is kept |
| Rag.ContextAfterTurns | src/groq_impl.rs:163-171 | from an empty history, the history after n responses is the newest min(n, max(bound, 1)) responses |
| Rag.RankByDecreasingSimilarity | src/groq_impl.rs:138-139 | the ranking has one entry per chunk, each a chunk index, higher similarity before lower |
| Rag.RankingIsPermutation | src/groq_impl.rs:138-139 | the ranking holds every chunk index exactly once |
| Rag.EqualSimilarityKeepsOrder | src/groq_impl.rs:135-139 | when all similarities are equal, the stable sort leaves the indices in their original order |
| Rag.RetrieveRelevantChunks | src/groq_impl.rs:124-142 | with every similarity 1.0 and a stable sort, the result is the first min(top_k, chunks) chunks in order |
| StableSort.SortEqualKeysIsIdentity | src/groq_impl.rs:139 | a stable sort by a constant key leaves the order unchanged |

## Left out

- The language-model calls, their prompts and the JSON response schema are left out. So is the HTTP client in the retrieval prototype. All of these are network I/O. The model takes the parsed request (`PromptAnalyse`) as input.
- Catalog loading through `include_str!` and JSON deserialisation is left out; the catalogs are given values.
- The haversine formula is left out. It is floating-point trigonometry. The selector takes the distance as a parameter `dist`, and nothing is required of it. The formula returns metres, while the divisor 20.0 is commented as kilometres; the constant is kept as written.
- Floating-point rounding and the NaN fallback of `partial_cmp(..).unwrap_or(Equal)` are not modelled. Costs are reals, so every comparison is defined.
- `total_count` is carried in `PromptAnalyse` and never read by the selection logic.
- Itinerary.DoTheJob: when no request has a candidate, the result is `None` rather than a definite outcome. The source then takes the head of the product of no lists. Depending on the iterator library's version, that head either panics or is an empty itinerary.
- StableSort.Sort: Rust's stable merge sort is modelled by a stable insertion sort on values. Any two stable sorts by the same key produce the same sequence, but the in-place update of `ranked_indices` is not modelled.
- Rag.RetrieveRelevantChunks: the whitespace tokenisation and the zero `Array2` vectors are placeholders that never affect the result, so they are not modelled.
- The PDF extraction, the directory scan, `rag_pipeline` and the console loop's reading and printing are file and console I/O. Only the history update of that loop is modelled, in `Rag.ContextAfterTurns`.
- The Leptos components, the reactive store, sessions, the map and marker bindings, and the Tauri commands (`run`, `greet`, `answer`) are user-interface glue and are not part of this model. So is the data-generation binary `src/bin/gen.rs`.
- Suggestions.SuggestionField: the reactive `Field` wrapper is modelled as an object whose `selected` field is overwritten. Change notification to the interface is not modelled.

## Findings

| source | as written | input that shows it | evidently intended | confidence | as-written member | corrected member |
|---|---|---|---|---|---|---|
| src/lib.rs:220 (also src/app.rs:241) | `prev` computes `((index - 1) % len as isize) as usize % len`. From index 0 the signed remainder is -1 (len ≥ 2), the cast gives 2^32 − 1 on a 32-bit target, and the result is (2^32 − 1) mod len | three places with the first selected: `prev` selects the first place again (index 0), not the third; `next` from the third then `prev` does not come back | `prev` from the first place selects the last one, so that `next` and `prev` undo each other for every length | high, not executed | Suggestions.PrevFromFirstOfThreeStays | Suggestions.NextThenPrevCyclicRestores |
