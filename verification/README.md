# TravelExplorer content aggregation, modelled in Dafny

TravelExplorer takes a destination and collects travel content for it from third-party providers:
- nearby attractions from OpenTripMap;
- a tabbed travel guide and a short summary from Wikivoyage, with Wikipedia as the summary's fallback;
- a month-by-month climate colouring from an OpenWeather forecast.

This project models the logic in `app.js` that decides what the page shows. It consists of pure functions over immutable datatypes, with contracts and lemmas. Every network answer is an input to the model: an `Option`, a `Response` (`Ok(body)`, `NotOk` or `Threw`), or a function inside an environment record.

The modules:

- `Wrappers`: `Option`, `Response`, and JavaScript truthiness of an optional string.
- `Text`: ASCII `toLowerCase`, ECMAScript `trim`, and decimal rendering of integers, together with their idempotence and injectivity lemmas.
- `Seqs`: the last position in a sequence that passes a test. The guide index and the climate labels both use it.
- `Tiered`: the strictly sequential fallback scan. It stops at the first candidate with a non-empty result.
- `Places`: `fetchOTMPlaces`.
  - The three request descriptors.
  - Normalising point-shaped and GeoJSON-shaped items into places.
  - The stable sort by `dist || 0`.
  - The fallback over the three descriptors, both as a function and as the source's loop.
- `Html`: the parsed section as a tree of element and text nodes, with the whole-tree rules the sanitiser establishes.
- `Sanitizer`: `sanitizeWvSection`, as its five passes in source order.
  1. Drop scripts.
  2. Rewrite or unwrap anchors.
  3. Drop edit chrome and tables.
  4. Make images lazy and keep the first six.
  5. Cut lists to ten element children.
- `GuideIndex`: the heading-to-section map and the tab list built from the fixed wanted order.
- `SectionCache`: the `wvSectionCache` map.
  - The tab click handler.
  - The prefetch of every tab.
  - Showing the first tab.
- `Summary`: `fetchDestinationSummary`.
- `Climate`: `fetchMonthlyClimate`'s grouping by month, and `applyClimateClassification`'s chip colouring.

## Model

| member | source | states |
|---|---|---|
| Text.Trim | app.js:457 | The result is a contiguous slice of the input. It has no whitespace at either end, and only whitespace was cut. |
| Text.TrimIdempotent | app.js:457 | Trimming a trimmed heading changes nothing. |
| Text.ToLower | app.js:457 | Same length as the input. Each ASCII capital is lowered and every other character is kept. |
| Text.ToLowerIdempotent | app.js:457 | Lower-casing twice equals lower-casing once, and a lower-cased string has no ASCII capital. |
| Text.IntToStringInjective | app.js:473 | Distinct section numbers render as distinct decimal strings. |
| Tiered.FirstNonEmpty | app.js:48-64 | At most as many candidates are tried as exist. A non-empty result is the last tried candidate's result, and every earlier candidate gave nothing. An empty result means every candidate was tried and all gave nothing. |
| Tiered.LaterCandidatesIrrelevant | app.js:48-64 | Once a candidate wins, replacing any candidate after it leaves the outcome unchanged. |
| Places.Clamp | app.js:36-37 | The result lies in `[lo, hi]`. It equals `x` when `x` is already inside, and the nearer bound otherwise. |
| Places.Attempts | app.js:35-46 | Exactly three descriptors, in this order:<br>1. a radius query filtered to the sightseeing kinds, with radius `Clamp(500, 3000, radius)`;<br>2. an unfiltered radius query, with radius `Clamp(1000, 5000, radius)`;<br>3. a bounding box centred on the point, with equal latitude and longitude spans of twice `Clamp(0.01, 0.08, radius / 120000)` degrees.<br>So the radii lie in [500, 3000] and [1000, 5000] m, the span lies in [0.02°, 0.16°], and each equals its input inside those ranges. Every descriptor carries rate 2. |
| Places.Convert | app.js:53-59 | An item survives exactly when its name is truthy, and items of neither shape never survive. A radius-format item becomes the place with its own name, point, xid and distance. A GeoJSON feature becomes a place at (coordinates[1], coordinates[0]), with its xid and no distance. |
| Places.Survivors | app.js:53-59 | A place is in the list exactly when some response item converts to it. No survivor has an empty name, and the list is never longer than the response. |
| Places.SurvivorsSingle | app.js:53-59 | One item gives its conversion when there is one, and nothing otherwise. |
| Places.SurvivorsConcat | app.js:53-59 | The survivors of two responses joined are the survivors of each, joined. With `SurvivorsSingle`, this fixes the order and multiplicity of the `map`/`filter` result. |
| Places.SortByDist | app.js:60 | The result is ascending by distance, a missing distance counting as 0, and is a permutation (equal multiset) of the input. |
| Places.SortByDistStable | app.js:60 | For every distance, the places with that distance keep their input order. |
| Places.Normalize | app.js:53-60 | The result is sorted, a permutation of the survivors, and free of empty names. It is empty exactly when nothing survives. Places with equal distance keep their response order. |
| Places.Attempt | app.js:49-60 | A failed, non-ok or throwing request counts as an empty list. An ok response gives a sorted, named permutation of that response's survivors, in which places with equal distance keep their response order. |
| Places.FetchPlaces | app.js:1-65 | Without an API key, nothing is requested and the list is empty. Otherwise at most three requests are made:<br>- a non-empty result is the first non-empty attempt, and every earlier attempt was empty;<br>- an empty result means all three attempts were made and all were empty.<br>The result is always sorted and named. |
| Places.FetchPlacesLoop | app.js:48-64 | The loop as written, with `continue` on failure and an early return, yields the same list and request count as `FetchPlaces`. |
| Sanitizer.EditPatternReduces | app.js:416 | The three-alternative edit pattern matches exactly when the lower-cased href contains `action=edit` or `special:`. |
| Sanitizer.RewriteHref | app.js:420-425 | `//x` becomes `https://x`. `/x` becomes `https://en.wikivoyage.org/x`. `#f` becomes `https://en.wikivoyage.org/wiki/` + encoded title + `#f`. Any other href is unchanged. The result always ends with the original href. |
| Sanitizer.RewriteHrefIdempotent | app.js:420-426 | Rewriting an already rewritten href changes nothing. |
| Sanitizer.ImageSrc | app.js:433-435 | A source starting with `/`, including `//`, becomes `https://en.wikivoyage.org` + source. Any other source is unchanged. |
| Sanitizer.ProtocolRelativeImageQuirk | app.js:421-435 | A protocol-relative image source `//x` becomes `https://en.wikivoyage.org//x`, because the second `if` overrides the first. The same href becomes `https://x`. |
| Sanitizer.RemoveWhere | app.js:411 | No element with a listed tag or a banned class remains. Every rule the input met still holds, no image is added, and the text nodes are kept, in order. |
| Sanitizer.RemoveFromNode | app.js:411 | A text node is kept as it is. A matching element is dropped with its subtree. Any other element keeps its tag, classes and attributes, and its children go through the same removal. |
| Sanitizer.RemoveWhereSingle | app.js:411 | Removing from a one-node sequence is removing from that node. |
| Sanitizer.RemoveWhereConcat | app.js:411 | Removing from two sequences joined is removing from each, joined. With `RemoveWhereSingle` and `RemoveFromNode`, this fixes exactly what survives, in document order. |
| Sanitizer.RemoveWhereKeepsClean | app.js:411 | A tree containing nothing to remove comes through unchanged. |
| Sanitizer.LinkAttrs | app.js:426-428 | A kept link's keys are its old keys plus href, target and rel. The href is rewritten, target is `_blank`, rel is `noopener`, and every other attribute is kept. |
| Sanitizer.FixAnchor | app.js:413-429 | An anchor without an href loses only that attribute. An edit link becomes a text node holding its text. Any other linking anchor gets `LinkAttrs`. Non-anchors keep tag, classes and attributes. In every case but the edit link, the children are the same pass applied to the old children. Text content is unchanged in every case. |
| Sanitizer.FixAnchors | app.js:413-429 | Each node is replaced by `FixAnchor` of itself, one for one. Every linking anchor opens in `_blank` with `noopener`. The text content is unchanged, every rule the input met still holds, and no image is added. |
| Sanitizer.FixAnchorsKeepsAnchorFree | app.js:413-429 | A tree without anchors comes through unchanged. |
| Sanitizer.FixImgAttrs | app.js:433-436 | The keys are exactly the old keys plus `loading`. `loading` is `lazy`, `src` is rewritten when present, and every other attribute is kept. |
| Sanitizer.FixImages | app.js:431-438 | Every rule other than image laziness that the input met still holds. |
| Sanitizer.FixImageShape | app.js:431-438 | A text node is kept. A non-image element keeps its tag, classes and attributes, and its children go through the same pass. An image within the first six keeps tag and classes, gets `FixImgAttrs`, and its children go through the pass with one more image counted. A later image is removed. |
| Sanitizer.FixImagesSingle | app.js:431-438 | The pass on a one-node sequence is the pass on that node. |
| Sanitizer.FixImagesConcat | app.js:431-438 | The pass on two sequences joined is the pass on the first, then the pass on the second with the first's images counted. With `FixImagesSingle` and `FixImageShape`, this fixes exactly what survives, in document order. |
| Sanitizer.FixImagesLazy | app.js:431-438 | Every image that remains is lazy. |
| Sanitizer.FixImagesKeepsTextNodes | app.js:431-438 | The text nodes of the sequence are kept, in order. |
| Sanitizer.FixImagesKeepsText | app.js:431-438 | When the tree has no more than six images, its text content is unchanged. |
| Sanitizer.FixImagesKeepsFirst | app.js:431-438 | The remaining images are exactly the first six of the document in document order, each with its attributes fixed. |
| Sanitizer.FixImagesKeepsImageFree | app.js:431-438 | A tree without images comes through unchanged. |
| Sanitizer.KeepElements | app.js:440-441 | The element children kept are exactly the first `n`, in order. The text nodes are all kept, in order. A list with at most `n` element children is unchanged, and the result is never longer than the input. |
| Sanitizer.KeepElementsSingle | app.js:440-441 | One text node is kept. One element is kept exactly when the budget is not used up. |
| Sanitizer.KeepElementsConcat | app.js:440-441 | Keeping from two sequences joined is keeping from the first, then from the second with what is left of the budget. With `KeepElementsSingle`, this makes the result the input with exactly the elements past the `n`-th taken out. |
| Sanitizer.TruncateLists | app.js:439-442 | Each node is replaced by `TruncateNode` of itself, one for one. Every `ul`/`ol` has at most ten element children, and every rule the input met still holds. The sequence keeps its length and its text nodes. |
| Sanitizer.TruncateNode | app.js:439-442 | A text node is unchanged. An element keeps its tag, classes and attributes, and its text children. Any other element's children are the pass applied to its old children. A `ul`/`ol`'s children are its processed children with every element after the tenth taken out (`KeepElements`), so it keeps exactly the first ten processed element children, in order. |
| Sanitizer.TruncateListsKeepsBounded | app.js:439-442 | A tree whose lists all have at most ten element children comes through unchanged. |
| Sanitizer.Sanitize | app.js:407-444 | The result has:<br>- no script, style, noscript or table element;<br>- no element with an edit-section, noprint, thumb or metadata class;<br>- every linking anchor safe;<br>- every image lazy;<br>- at most six images;<br>- every list at most ten items. |
| Sanitizer.SanitizeKeepsText | app.js:407-444 | A section with no removed tag or class, at most six images and no over-long list comes out as the anchor pass followed by the image pass: the script, class-and-table and list passes change nothing. So edit links become their own text, every other change is to anchor and image attributes (`FixAnchor`, `FixImageShape`), and the whole text content is kept. |
| Sanitizer.EditLinkTextOutlivesBlockedClass | app.js:413-430 | The pass order matters. An edit link with class `noprint` comes out as its text, because the anchor pass unwraps it before the class pass runs. With the class pass first, the whole link, text included, would be removed. |
| Sanitizer.SanitizeKeepsClean | app.js:407-444 | A tree that gives no pass anything to do comes out as it went in. Such a tree has no removed element, no anchor, no image and no over-long list. |
| GuideIndex.LastKeyed | app.js:456-457 | Finds the last entry under a key, or reports that none exists. |
| GuideIndex.IndexOf | app.js:455-458 | A heading is in the map exactly when some section has it. It maps to the number of the last such section, since a later `set` overwrites. |
| GuideIndex.Tabs | app.js:459-465 | A wanted topic gets a tab exactly when its lower-cased name maps to a truthy (non-zero, non-NaN) number. The tab carries that number, and tab topics keep the wanted order. |
| GuideIndex.TabsDistinct | app.js:451-465 | No topic appears twice among the tabs. |
| GuideIndex.TabIffLastSectionTruthy | app.js:455-465 | Stated over the outline's sections. Take the last section whose non-empty heading, trimmed and lower-cased, equals the lower-cased topic. The topic gets a tab exactly when that section has a truthy number, and the tab carries that number. |
| GuideIndex.ResolveGuide | app.js:452-466 | "Guide not available." exactly when the outline request failed or no wanted topic resolves. Otherwise the tab list, which is non-empty. |
| SectionCache.CacheKeyInjective | app.js:473 | Two `title::index` keys are equal only for equal titles and equal section numbers. |
| SectionCache.Load | app.js:479-480 | The sentinel is stored exactly when the section request gives null or the empty string. Otherwise the stored value is the sanitised parse of the returned markup, with the encoded title. |
| SectionCache.LoadIsSafe | app.js:479-480 | Whatever a miss stores, other than the sentinel, meets every sanitiser guarantee. |
| SectionCache.Get | app.js:473-483 | A hit returns the stored value, changes nothing and makes no request. A miss requests and loads the section. Either way, the key then holds the shown value, only that key may be added, and no other key changes. |
| SectionCache.HitIsLoad | app.js:474-476 | In a cache whose entries are what loading their keys gives, a hit returns what a miss would load, so it is sanitised. |
| SectionCache.GetKeepsCoherent | app.js:473-483 | A lookup keeps every entry equal to what loading its key gives, and returns that loaded value. |
| SectionCache.StoredHolds | app.js:488-495 | After the prefetch, each tab's key holds what a lookup in the cache as it was at the start gives. |
| SectionCache.StoredFrame | app.js:488-495 | The prefetch replaces no earlier entry, and every new key belongs to some tab. |
| SectionCache.Requests | app.js:489-491 | Exactly one request per tab whose key is missing from the cache as it was when the prefetch began. So at most one per tab, and none exactly when every tab's key was cached. |
| SectionCache.Prefetch | app.js:488-495 | One result per tab, in tab order, each equal to a lookup in the starting cache. Each tab's key holds its result, and earlier entries are kept. New keys come only from the tabs. The number of requests is exactly the number of tabs whose key was missing. |
| SectionCache.WarmPrefetchIsFree | app.js:488-495 | When every tab's key is cached, the prefetch makes no request and leaves the cache as it was. |
| SectionCache.NoSingleFlight | app.js:488-495 | Two tabs on the same uncached section cause two requests and fill a single key. |
| SectionCache.TwoMissesTwoRequests | app.js:490-491 | Two tabs on an empty cache issue two requests. |
| SectionCache.SharedIndexOneKey | app.js:489-493 | Two tabs with the same section number fill exactly one key. |
| SectionCache.PrefetchKeepsCoherent | app.js:488-495 | The prefetch keeps every entry equal to what loading its key gives, and each result is the loaded section. |
| SectionCache.FirstView | app.js:496-497 | The first result's markup is shown exactly when a first result exists, is not the sentinel, and serialises to non-empty markup. Otherwise "Section unavailable." is shown. |
| SectionCache.ClickView | app.js:474-483 | A click shows the sentinel text exactly for a sentinel entry. Otherwise it shows the stored markup as it is. |
| SectionCache.EmptySectionShownTwoWays | app.js:474-497 | A section that sanitises to empty markup is shown as "Section unavailable." on first display, but as empty markup when its tab is clicked. |
| SectionCache.RenderGuide | app.js:452-497 | "Guide not available." exactly when there is no guide or no tab, and then the cache is untouched. Otherwise:<br>- the tabs are shown as resolved;<br>- the view is what a lookup of the first tab in the starting cache gives;<br>- afterwards every tab click is a hit;<br>- earlier entries are kept;<br>- the cache and request count are those of the prefetch over the shown tabs, so exactly one request per tab whose key was missing. |
| Summary.FetchSummary | app.js:335-367 | A usable first Wikivoyage page wins, with its extract and URL. Wikipedia is asked exactly when Wikivoyage answered without a usable first page. Wikipedia is used exactly when it was asked and gave both an extract and a desktop URL. The promise rejects exactly when a request throws. Otherwise the result is null. |
| Summary.WikipediaIrrelevantAfterHit | app.js:351-355 | Once Wikivoyage answers usably, nothing Wikipedia would say changes the outcome. |
| Summary.OnlyFirstPageCounts | app.js:351-353 | A usable extract on a later page is never used when the first page has none. |
| Climate.RainAmount | app.js:322 | The rain is the 3-hour amount when it is truthy. Otherwise it is the 1-hour amount when that is truthy. Otherwise, or with no `rain` at all, it is 0. |
| Climate.InMonthMembers | app.js:315-324 | A month's bucket holds exactly the samples dated in that month. |
| Climate.Aggregate | app.js:314-330 | One entry per month that has samples, at most twelve, in ascending month order. Each entry holds the mean temperature, mean humidity and total rain of that month's samples. |
| Climate.AverageWithinSampleRange | app.js:326-327 | A month's average temperature lies within any bounds its samples respect. |
| Climate.AggregateByMonth | app.js:314-330 | The code's two passes yield exactly `Aggregate`: bucket and push per item, then map over `Object.keys`. |
| Climate.MonthlyClimate | app.js:302-333 | A list exactly when there is a key, the response is ok and it has a `list`. That list is the monthly aggregate. |
| Climate.Labels | app.js:851-855 | A month has a label exactly when some entry is for it. The label is the last such entry's grade. |
| Climate.MonthIndexOf | app.js:858 | -1 exactly when the chip text is not an English month name. Otherwise the index of that name in `MONTHS`. |
| Climate.MonthNamesDistinct | app.js:601-603 | Looking up month name `m` gives back `m`. |
| Climate.Recolor | app.js:857-864 | The chip text and its non-grade classes are unchanged. Exactly one grade class remains: its month's label, or `warn`. |
| Climate.ClassifyAgainstList | app.js:850-864 | Stated against the climate list. A chip is `good` (or `bad`) exactly when the last entry for the month it names grades good (or bad). It is `warn` exactly when no entry is for that month, or the chip names no month. Its text and other classes are unchanged. |
| Climate.GradeFromSamples | app.js:848-864 | The chip for month `m` takes the grade of that month's aggregate when the forecast has samples in `m`. Otherwise it takes `warn`. |
| Climate.ChipColourFromSamples | app.js:848-865 | A month chip is `good` exactly when the month has samples with average temperature in [15, 30] and rain below 100. It is `bad` exactly when the month has samples that fail this. It is `warn` exactly when the month has none. |
| Climate.NonMonthChipWarns | app.js:858-863 | A chip whose text names no month is coloured `warn` only. |

## Left out

- URL building and JSON decoding are not modelled; each response is a datatype of the fields the code reads. This covers the API key in the query string, `limit=30`, `format=json`, and the MediaWiki and REST URL formats.
- `fetch`, `r.ok` and exceptions are inputs.
  - Where the code turns every failure into the same empty answer, the request is an `Option` (`Places.Attempt`).
  - Elsewhere it is a `Response`, which tells an ok answer, a not-ok answer and a thrown request apart.
  - In `Summary.FetchSummary` nothing catches, so `Threw` is the rejected promise (`Rejected`).
  - In `Climate.MonthlyClimate` the `try` at app.js:308-332 catches, so `Threw` gives `null`, like a not-ok answer.
- `fetchWikivoyageGuide` (app.js:370-385) is an input: the outline, or its absence. `fetchWikivoyageSection` (app.js:387-402) is the `fetch` field of `SectionCache.Env`. The guide's `html` field is never read by the modelled code.
- `innerHTML` parsing and serialisation are inputs:
  - the sanitiser works on the parsed tree;
  - the parser is the `parse` field of `SectionCache.Env`;
  - cache entries hold that tree instead of the serialised string.
- "Serialises to the empty string" is approximated as "only empty text nodes".
- `encodeURIComponent` is the `encode` field of `SectionCache.Env`.
- Dates are not modelled: each forecast sample carries its month index (what `getMonth()` returns).
- Numbers are `real`, with no IEEE rounding, infinities or NaN. The exception is `GuideIndex.SectionNumber`, whose `NaN` case models `Number(s.index)` on a non-numeric index. Section numbers that are finite but not integers are not modelled.
- `Text.ToLower` lowers ASCII letters only. JavaScript's `toLowerCase` lowers other letters too, and one of them becomes an ASCII letter: KELVIN SIGN (U+212A) becomes `k`. (U+0130 becomes `i` followed by a combining dot, which is not ASCII.) So a heading's key can differ between the code and the model. A key equal to a wanted topic (`get in`, `see`, `do`, `eat`, `respect`, `stay safe`) comes only from an all-ASCII heading in both, because no topic contains a `k`. So the tabs found are the same.
- A forecast item without `main`, or a `list` that is not an array, makes the code throw and return null. The model does not represent such items.
- Concurrency is not modelled.
  - In the prefetch, every closure checks the cache as it was before the batch started. This is exact: `tabs.map` runs each closure's `has` check synchronously, before any of them awaits.
  - A tab clicked while the prefetch is running, and a newer `renderWikivoyageGuide` call overtaking an older one, are not modelled.
  - The cache has no single-flight behaviour. Two tabs sharing a section number, or a click during the prefetch, issue duplicate requests. The model follows the code here (`SectionCache.NoSingleFlight`).
- SectionCache.Prefetch: the section request is deterministic, because `Env.fetch` is a function of title and index. So two requests for the same key always get the same answer. In the code, two in-flight requests for one key may get different answers, and the cache keeps whichever `set` runs last (app.js:493). The model does not represent that case, so it does not say which answer wins.
- Places.Survivors: its own contract fixes only which places appear. Their order and multiplicity, as `map` then `filter` give them, are fixed by `Places.SurvivorsSingle` and `Places.SurvivorsConcat`.
- The cache is keyed by the pair `(title, index)`, not by the string `title::index`. `SectionCache.CacheKeyInjective` shows the two key spaces tell entries apart in the same way.
- `SectionCache.RenderGuide` takes the guide as `GuideIndex.ResolveGuide` returns it.
- `Summary.FetchSummary` models a rejected promise only as the `Rejected` outcome, not the error value.
- Not modelled:
  - DOM building: buttons, chip labels, markers, the loading text;
  - local storage and the climate cache;
  - the other fetchers: geocoding, details, weather, images;
  - the heuristic climate fallback and the destination overrides.
