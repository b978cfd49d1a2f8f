# Itinerary planner: the route ("parcours") pipeline

A Dafny model of the logic behind a browser trip planner. A user names a trip and picks how to
travel (by car or on foot). They then edit a route of points: a start, steps, and a destination.
The planner asks a route-planning model to describe the trip, shows share links for the result,
and keeps a list of saved itineraries. The list can be searched, sorted and paged.

The repository has two revisions. The first, `index.tsx`, bundles every component and is the one
the page mounts. Its route points are records `{id, value}`. The second is a set of standalone
files (`App.tsx`, `components/*.tsx`, `services/geminiService.ts`) whose route is a plain list
of strings. Where the two behave differently, the model has one function for each.

Modules, in dependency order:

- `Basics`: `Option` and `Result`.
- `Text`: ECMAScript `trim` (the exact WhiteSpace and LineTerminator set), ASCII `toLowerCase`,
  `includes`, `join`, `split`, and number-to-string.
- `Utf8`: UTF-8 encoding of Unicode scalar values, with a reference decoder.
- `PercentEncoding`: the `application/x-www-form-urlencoded` byte serializer that
  `URLSearchParams` uses (section 5.2 of the WHATWG URL Standard). Also ECMAScript
  `encodeURIComponent` (ECMA-262 section 19.2.6.5). Each has a strict reference decoder, and
  both round trips are proved.
- `Urls`: a `URL` object as a class. `searchParams.append` is a method on it, and `toString()`
  a function of its fields. A reference parser reads the query back.
- `Domain`: the records of `types.ts` and of the type block of `index.tsx`.
- `I18n`: the five languages and the translation fields the logic reads.
- `Parcours`: the list operations behind the form handlers: `splice`, `filter` by index,
  `reverse`, `slice(1, -1)` and `filter`. They are generic in the element type.
- `ReturnTrip`: the name rewrite of "prepare the return trip".
- `Form`: the form handlers of both revisions, and the form's own state as a class (the row
  being dragged and the validation message).
- `Query`: `buildUserQuery`, and the rule that turns the model's answer into a response or an
  error.
- `Share`: the Google Maps directions URL, built by successive `append` calls on one `URL`
  object; the QR-code URL that carries it; and the `mailto:` link.
- `SavedList`: the saved-list view. It filters by name case-insensitively, sorts by name up or
  down, and shows 5 entries per page. Its search term, sort order and page are a class.
- `Session`: the `App` state as a class. Save is an upsert, delete removes by id, view loads
  an entry, and the starting language is chosen from the stored code or the browser language.

The share links take only the route values, the transport mode, the translation table and the
route name as arguments. That is why none of them can depend on the description the model
returned.

Where the standalone display and the standalone service read `p.value` on route entries, they
are written for the `{id, value}` revision, although `types.ts` declares a string list. The model
follows the code: both work on the values of the route (`Domain.Values`).

## Model

| member | source | states |
|---|---|---|
| Text.HasContentIff | components/ItineraryDisplay.tsx:23 | a value survives `s.trim() !== ''` exactly when one of its characters is not ECMAScript white space |
| Text.Trim | components/ItineraryDisplay.tsx:23 | `trim()` never lengthens a value, and what it keeps neither starts nor ends with white space; `Text.HasContentIff` says when it keeps anything |
| Text.Contains | components/SavedItineraries.tsx:26 | `includes` is true exactly when the needle occurs at some position of the text |
| Text.LowerAsciiIdempotent | components/SavedItineraries.tsx:26 | lower-casing leaves no ASCII capital, so doing it twice changes nothing |
| Text.SplitJoin | components/ItineraryDisplay.tsx:25 | splitting a join of separator-free parts gives back exactly those parts |
| Text.JoinSplit | components/ItineraryDisplay.tsx:25 | joining what `split` returned with the separator gives back the text |
| Text.JoinEmptyIff | components/ItineraryDisplay.tsx:25 | a join of non-empty parts is empty only when there are no parts |
| Text.DecimalRoundTrip | components/SavedItineraries.tsx:74 | the printed step count reads back as the count |
| Utf8.DecodeEncode | components/ItineraryDisplay.tsx:43 | the UTF-8 bytes of any text decode back to that text |
| Utf8.EncodeAppend | components/ItineraryDisplay.tsx:43 | UTF-8 encodes a concatenation as the concatenation of the encodings |
| PercentEncoding.EncodeByte | components/ItineraryDisplay.tsx:43 | a byte is copied when the encoder leaves it as it is (or becomes `+` for a space in a form), otherwise it becomes `%` and two hex digits; only safe characters come out |
| PercentEncoding.NoDelimiters | components/ItineraryDisplay.tsx:43-45 | neither encoder emits `&`, `=`, `#`, `?`, a pipe or a space |
| PercentEncoding.PercentRoundTrip | components/ItineraryDisplay.tsx:43 | the reference decoder inverts both encoders on every text |
| PercentEncoding.PercentEncodeAppend | components/ItineraryDisplay.tsx:43 | encoding works character by character: a concatenation encodes as the concatenation |
| PercentEncoding.PercentEncodeUnreserved | components/ItineraryDisplay.tsx:43 | text made only of characters the encoder keeps comes out unchanged |
| PercentEncoding.DecodeSpaceJoined | components/ItineraryDisplay.tsx:45 | two encoded parts joined by a literal space decode to the two texts around a space |
| PercentEncoding.FormEncodeSpace | components/ItineraryDisplay.tsx:34-40 | in a form a space is written `+` between letters and digits |
| PercentEncoding.FormEncode | components/ItineraryDisplay.tsx:34-40 | what `URLSearchParams` writes for a name or a value; `PercentEncoding.PercentRoundTrip` decodes it back and `PercentEncoding.NoDelimiters` shows it emits no `&`, `=`, `#`, `?` or space |
| PercentEncoding.EncodeUriComponent | components/ItineraryDisplay.tsx:43-45 | `encodeURIComponent`; `PercentEncoding.PercentRoundTrip` decodes it back and `PercentEncoding.NoDelimiters` shows it emits no delimiter |
| PercentEncoding.UriComponentExample | components/ItineraryDisplay.tsx:43 | `encodeURIComponent` writes a space as `%20` and `é` as its two UTF-8 bytes `%C3%A9` |
| Urls.SerializeParam | components/ItineraryDisplay.tsx:34-40 | a serialized `name=value` pair never contains `&` |
| Urls.ParseSerializeForm | components/ItineraryDisplay.tsx:33-41 | a serialized parameter list is read back pair for pair, in order |
| Urls.AfterFirst | components/ItineraryDisplay.tsx:41 | there is a text after the first `?` exactly when the URL contains one |
| Urls.HrefOf | components/ItineraryDisplay.tsx:41 | `toString()` of a base and its parameters; `Urls.QueryOfHref` states that there is no `?` without parameters and that the query parses back to them |
| Urls.QueryOfHref | components/ItineraryDisplay.tsx:41 | `toString()` has no query without parameters; otherwise its query is the serialized list and parses back to the parameters |
| Urls.Url.constructor | components/ItineraryDisplay.tsx:33 | a new URL has its base and no parameters |
| Urls.Url.Append | components/ItineraryDisplay.tsx:34-40 | `searchParams.append` adds the pair at the end and changes nothing else |
| Urls.Url.Href | components/ItineraryDisplay.tsx:41 | `constructedMapUrl.toString()` of the URL object; `Urls.QueryOfHref` reads its query back |
| Domain.Values | components/ItineraryDisplay.tsx:20 | the values of the route, position by position |
| Parcours.SpliceStart | components/ItineraryForm.tsx:35 | a negative `splice` start counts from the end, and every start is clamped to the list |
| Parcours.InsertBeforeLast | components/ItineraryForm.tsx:35 | `splice(length - 1, 0, x)` adds one entry: `x` at the old last index, in front of the destination; an empty list becomes `[x]`; the start of two or more points is kept |
| Parcours.InsertBeforeLastShape | components/ItineraryForm.tsx:33-37 | add-step grows the route by one; the new entry sits at the old last index, in front of the destination; for two or more points the start and the destination are kept; removing that entry gives the route back; the multiset gains exactly the new entry |
| Parcours.WithoutIndex | components/ItineraryForm.tsx:41 | filtering out position `index` removes exactly that entry and keeps the others in order; an index outside the list changes nothing |
| Parcours.RemoveStep | components/ItineraryForm.tsx:39-43 | at most two points are left as they are; otherwise at most one entry goes, and at least two points stay |
| Parcours.RemoveStepShape | components/ItineraryForm.tsx:39-43 | remove-step changes nothing for two points or fewer; otherwise it drops exactly position `index` and leaves at least two points |
| Parcours.Move | components/ItineraryForm.tsx:60-62 | the moved entry lands at the drop index and the length is kept |
| Parcours.MoveProperties | components/ItineraryForm.tsx:60-62 | a move is a permutation that keeps the other entries in their relative order, and moving back undoes it |
| Parcours.MoveToSelf | index.tsx:745-747 | moving an entry onto its own index changes nothing |
| Parcours.Reversed | components/ItineraryForm.tsx:104 | entry `i` of the reversed route is entry `n-1-i` of the route |
| Parcours.ReversedReversed | components/ItineraryForm.tsx:104 | reversing twice gives the route back |
| Parcours.ReversedMultiset | components/ItineraryForm.tsx:104 | reversal is a permutation |
| Parcours.Filter | services/geminiService.ts:17 | the filter never grows the list and keeps only entries that pass |
| Parcours.FilterMembers | services/geminiService.ts:17 | what the filter keeps comes from the list, and every passing entry is kept |
| Parcours.FilterAppend | services/geminiService.ts:17 | filtering works piece by piece, so the kept entries stay in order |
| Parcours.FilterAllOrNone | services/geminiService.ts:17 | a filter every entry passes keeps all; one none passes keeps nothing |
| Parcours.FilterMultiset | services/geminiService.ts:17 | the filter keeps each entry at most as often as the list holds it |
| Parcours.FilterCount | components/SavedItineraries.tsx:26 | the filter keeps each passing entry exactly as often as the list holds it, and no entry that fails |
| Parcours.Interior | services/geminiService.ts:17 | `slice(1, -1)` is positions 1 to n-2, and nothing for fewer than two points |
| Parcours.InteriorKept | services/geminiService.ts:17 | an interior entry that passes the filter is kept |
| Parcours.InteriorNoneKept | services/geminiService.ts:17 | the filtered interior is empty exactly when no interior entry passes |
| Parcours.InteriorInsertBeforeLast | index.tsx:720 | add-step extends the interior at its end |
| Parcours.InteriorIgnoresEnds | services/geminiService.ts:14-17 | the interior does not depend on the start or the destination |
| Form.ChangeValue | index.tsx:713-716 | only the value at `index` changes; the length, the ids and every other point are kept |
| Form.AddStep | index.tsx:718-722 | one point more: an empty one with the fresh id, just before the destination; the destination moves one place on and the start of a two-point route is kept |
| Form.AddStepKeepsIdsDistinct | index.tsx:718-722 | adding a step with an unused id keeps the route ids distinct |
| Form.MoveKeepsIdsDistinct | index.tsx:745-747 | a drop keeps the route ids distinct |
| Form.StepsDoNotMatter | index.tsx:775-783 | adding a step, removing an interior one or emptying an interior one never changes whether submit is accepted |
| Form.NoTrimming | components/ItineraryForm.tsx:91 | white space counts as filled in, and an empty destination rejects |
| Form.RequiredFilled | index.tsx:775-783 | the submit test on the name, the first value and the last value; what it accepts is stated by `Form.FormState.Submit`, `Form.NoTrimming` and `Form.StepsDoNotMatter` |
| Form.PrepareReturn | index.tsx:785-794 | the mode and the position are kept; the route is reversed point by point; the name ends with `" - "` and the current language's suffix, after a prefix of the old name |
| Form.PrepareReturnTwice | index.tsx:785-794 | prepare-return keeps the mode and the position, permutes the route, restores the order when applied twice, and gives the same name twice as once |
| Form.ChangeValueStandalone | components/ItineraryForm.tsx:27-31 | slot `index` gets the value; the length and the other slots are kept |
| Form.AddStepStandalone | components/ItineraryForm.tsx:33-37 | one value more: `''` just before the destination; the destination moves one place on and the start of a two-point route is kept |
| Form.RevisionsAgree | components/ItineraryForm.tsx:27-43 | on the values, the two revisions change, add and remove steps alike |
| Form.AddStepValues | index.tsx:718-722 | on the values, the bundled add-step is the standalone one, whatever the fresh id |
| Form.RemoveStepValues | index.tsx:724-728 | on the values, the bundled remove-step is the standalone one |
| Form.PrepareReturnStandaloneTwice | components/ItineraryForm.tsx:99-106 | the standalone form restores the order when applied twice; in French or English the name keeps one suffix, in German, Italian or Dutch a second suffix is appended |
| Form.PrepareReturnStandalone | components/ItineraryForm.tsx:99-106 | the mode and the position are kept; the route is reversed point by point; the name ends with `" - "` and the current language's suffix, after a prefix of the old name |
| Form.FormState.constructor | index.tsx:709-710 | the form starts with no dragged row and no message |
| Form.FormState.DragStart | components/ItineraryForm.tsx:45-48 | any row may be picked up; the message is kept |
| Form.FormState.DragEnd | components/ItineraryForm.tsx:67-69 | the drag ends; the message is kept |
| Form.FormState.Drop | components/ItineraryForm.tsx:54-65 | no new route exactly when nothing was dragged or the row was dropped on itself; otherwise the moved route, a permutation with the dragged entry at the drop index; the drag ends either way |
| Form.FormState.Submit | components/ItineraryForm.tsx:89-97 | accepted exactly when the name, the first value and the last value are non-empty; the localized message is set on rejection and cleared on acceptance |
| ReturnTrip.FirstMatch | components/ItineraryForm.tsx:101-102 | the leftmost position where ` - (alt...)$` matches, with no match before it, or none at all |
| ReturnTrip.Strip | components/ItineraryForm.tsx:102 | `replace(regex, '')` leaves a prefix of the name; `ReturnTrip.StripTail`, `StripNoTail` and `StripShape` say which |
| ReturnTrip.MatchUnique | index.tsx:789 | with hyphen-free alternatives the expression matches at one position at most |
| ReturnTrip.StripTail | components/ItineraryForm.tsx:102 | a name ending in `" - alt"` loses exactly that ending |
| ReturnTrip.StripNoTail | components/ItineraryForm.tsx:102 | a name with no such ending is left as it is |
| ReturnTrip.StripShape | components/ItineraryForm.tsx:102 | the strip leaves the name, or the name without one trailing `" - alt"` |
| ReturnTrip.AllSuffixesHyphenFree | index.tsx:786-788 | no language's suffix contains a hyphen |
| ReturnTrip.ReturnName | index.tsx:785-791 | the new name ends with `" - "` and the current language's suffix, after a prefix of the old name |
| ReturnTrip.ReturnNameTwice | index.tsx:785-791 | in the bundled revision, rewriting a rewritten name gives the name rewritten once (in the second language): one suffix exactly |
| ReturnTrip.ReturnNameStandalone | components/ItineraryForm.tsx:99-103 | the new name ends with `" - "` and the current language's suffix, after a prefix of the old name |
| ReturnTrip.StandaloneTwiceFrEn | components/ItineraryForm.tsx:100-103 | with French or English active the standalone rewrite keeps one suffix |
| ReturnTrip.StandaloneTwiceAccumulates | components/ItineraryForm.tsx:100-103 | with German, Italian or Dutch active the standalone rewrite appends a second suffix |
| ReturnTrip.GermanAccumulationExample | components/ItineraryForm.tsx:100-103 | `"X"` rewritten twice in German is `"X - Rückfahrt - Rückfahrt"` |
| ReturnTrip.StripsOnlyOne | components/ItineraryForm.tsx:101-102 | `"A - Return - Return"` is stripped to `"A - Return"` |
| I18n.ParseLanguage | App.tsx:23 | a text is accepted exactly when it is the code of a supported language, and gives that language |
| I18n.ParseCode | App.tsx:23 | every language's code is accepted as that language |
| I18n.TransportLabel | index.tsx:51-54 | there is a label for every mode except `Transit` |
| I18n.MailtoBodyEndsWithLink | index.tsx:86 | the mail body ends with the map URL on a line of its own |
| I18n.AllReturnSuffixes | index.tsx:786-788 | the stripped suffixes are the five languages' suffixes, in the table's order |
| I18n.SuffixListed | index.tsx:786-788 | the current language's suffix is always among those stripped |
| I18n.SuffixShape | index.tsx:69-338 | no suffix is empty or contains a hyphen or a space |
| Query.Steps | services/geminiService.ts:17 | `slice(1, -1).filter(s => s.trim() !== '')`; its meaning is stated by `StepsAreNonBlankInterior`, `NonBlankInteriorIsStep` and `NoStepsIff` |
| Query.StepsAreNonBlankInterior | services/geminiService.ts:17 | every step is a non-blank interior value |
| Query.NonBlankInteriorIsStep | services/geminiService.ts:17 | every non-blank interior value is a step |
| Query.NoStepsIff | services/geminiService.ts:17-23 | there are no steps exactly when every interior value is blank |
| Query.StepsIgnoreEnds | services/geminiService.ts:14-17 | the start and the destination never enter the steps by position |
| Query.StepsIgnoreBlankAdded | index.tsx:401 | a blank step added before the destination leaves the steps unchanged |
| Query.ViaClause | services/geminiService.ts:21-23 | the via clause is empty exactly when there are no steps |
| Query.ModeText | services/geminiService.ts:19 | the mode text exists exactly for modes with a label, and is the lower-cased label |
| Query.ModeTextsFr | index.tsx:51-54 | the French mode texts are `voiture` and `piéton` |
| Query.ModeTextsEn | index.tsx:123-126 | the English mode texts are `car` and `pedestrian` |
| Query.ModeTextsDe | index.tsx:192-195 | the German mode texts are `auto` and `fußgänger` |
| Query.ModeTextsIt | index.tsx:256-259 | the Italian mode texts are `auto` and `a piedi` |
| Query.ModeTextsNl | index.tsx:320-323 | the Dutch mode texts are `auto` and `te voet` |
| Query.BuildUserQuery | services/geminiService.ts:12-26 | a sentence is built exactly when the mode has a label |
| Query.QueryOf | services/geminiService.ts:19-25 | the sentence for a name, a mode, a start, a destination and the steps exists exactly when the mode has a label |
| Query.QueryDependsOnStepsOnly | services/geminiService.ts:12-26 | the sentence depends on the route only through its start, destination and steps |
| Query.QueryIgnoresAddedStep | index.tsx:396-410 | an added blank step does not change the sentence |
| Query.QueryEnding | services/geminiService.ts:21-25 | the sentence ends with a full stop: right after the steps, joined by `" ; "`, when there are some, otherwise right after the mode text |
| Query.SentenceEnding | services/geminiService.ts:25 | the same ending for any prefix, mode text and steps |
| Query.GenerateStandalone | services/geminiService.ts:28-61 | success exactly when a label exists and the call returned a non-empty text; the response carries that text and the request's name; every other failure is the localized API error |
| Query.GenerateBundled | index.tsx:412-455 | without a key, the key message; success exactly when a label exists and the call returned (even with no text); the response carries the text and the request's name; failures of the call are the localized API error |
| Query.GenerateRevisionsAgree | index.tsx:447-449 | with a key, the revisions agree unless the answer has no text or an empty one |
| Share.Waypoints | components/ItineraryDisplay.tsx:25 | the waypoints text is empty exactly when there are no steps |
| Share.WaypointsSplit | components/ItineraryDisplay.tsx:25 | when no step contains a pipe, the waypoints split back into the steps |
| Share.StepsNotEmpty | components/ItineraryDisplay.tsx:23 | no step is the empty string |
| Share.TravelMode | components/ItineraryDisplay.tsx:27-31 | `driving` exactly for the car and `walking` exactly on foot |
| Share.ConstructMapUrl | components/ItineraryDisplay.tsx:20-41 | the URL built on the `URL` object is the directions URL of the route and the mode |
| Share.MapUrlOf | components/ItineraryDisplay.tsx:33-41 | the directions URL starts with the directions base and `?`; `Share.MapUrlQuery` reads its query back |
| Share.NewDirectionsUrl | components/ItineraryDisplay.tsx:33-41 | five `append` calls, the waypoints only when non-empty, give the base plus the serialized parameters in the order appended |
| Share.MapUrlQuery | components/ItineraryDisplay.tsx:33-41 | the query of the directions URL parses back to exactly the parameters appended |
| Share.MapParamsShape | components/ItineraryDisplay.tsx:33-41 | the parameters are `api=1`, the start, the destination, the steps joined by pipes only when there are some, and the travel mode last; five with steps, four without |
| Share.StartOf | components/ItineraryDisplay.tsx:21 | `parcoursValues[0] \|\| ''`; `Share.MapParamsShape` places it as the `origin` parameter |
| Share.DestinationOf | components/ItineraryDisplay.tsx:22 | `parcoursValues[length - 1] \|\| ''`; `Share.MapParamsShape` places it as the `destination` parameter |
| Share.QrCodeUrl | components/ItineraryDisplay.tsx:43 | the QR-code image URL; `Share.QrCodeCarriesMapUrl` states what it carries |
| Share.QrCodeCarriesMapUrl | components/ItineraryDisplay.tsx:43 | the first query field of the QR URL is `data=` and a text that decodes back to the map URL |
| Share.MailtoCarries | components/ItineraryDisplay.tsx:45 | a `mailto:` link has two fields; the subject decodes to the subject text, a space and the route name, and the body decodes to the body text |
| Share.MailtoOf | components/ItineraryDisplay.tsx:45 | the link starts with `mailto:?subject=`; `Share.MailtoCarries` shows its two fields decode to the subject and the body |
| Share.MailtoLink | components/ItineraryDisplay.tsx:45 | the link starts with `mailto:?subject=`; `Share.MailtoCarriesSubjectAndBody` states what it carries |
| Share.MailtoCarriesSubjectAndBody | index.tsx:958 | the link of the result screen carries the localized subject with the route name, and a body ending with the map URL |
| SavedList.NameMatches | components/SavedItineraries.tsx:26 | a name matches only a term no longer than itself; `EmptyTermMatches` and `MatchIgnoresCase` state the rest |
| SavedList.EmptyTermMatches | components/SavedItineraries.tsx:26 | the empty term matches every name |
| SavedList.MatchIgnoresCase | components/SavedItineraries.tsx:26 | matching does not depend on the case of ASCII letters, in the name or in the term |
| SavedList.FilterByName | components/SavedItineraries.tsx:26 | the filter never grows the list and keeps only matching entries |
| SavedList.FilterByNameKeeps | components/SavedItineraries.tsx:26 | an entry is kept exactly when it is stored and its name matches |
| SavedList.EmptyTermKeepsAll | components/SavedItineraries.tsx:26 | an empty search keeps the whole list |
| SavedList.Flip | components/SavedItineraries.tsx:48 | the toggle always changes the direction |
| SavedList.FlipSwaps | components/SavedItineraries.tsx:27-32 | descending compares with the arguments swapped |
| SavedList.Compare | components/SavedItineraries.tsx:27-32 | the comparator handed to `sort`; `SavedList.FlipSwaps` shows descending swaps the arguments and `SavedList.SortSorted` orders by it |
| SavedList.Insert | components/SavedItineraries.tsx:27-32 | insertion adds the entry to the multiset, and puts it first or keeps the old head |
| SavedList.Sort | components/SavedItineraries.tsx:27-32 | the sorted list is a permutation of its input |
| SavedList.InsertSorted | components/SavedItineraries.tsx:27-32 | under a total collation, insertion into a sorted list keeps it sorted |
| SavedList.SortSorted | components/SavedItineraries.tsx:27-32 | under a total collation, the sort's output is in order |
| SavedList.Arrange | components/SavedItineraries.tsx:24-33 | the arranged list is never longer than the stored one, and each of its entries is stored and matches the term |
| SavedList.ArrangeSpec | components/SavedItineraries.tsx:24-33 | every matching entry appears exactly as often as it is stored and no other entry appears; the list is a permutation of the filtered one, and in order under a total collation |
| SavedList.TotalPages | components/SavedItineraries.tsx:35 | the page count is the ceiling of n/5 |
| SavedList.Page | components/SavedItineraries.tsx:36-39 | every page, for any page number, holds at most five entries; `PageContents` says which |
| SavedList.PageContents | components/SavedItineraries.tsx:36-39 | a page holds at most 5 entries, the slice from `(page-1)*5`; it is non-empty exactly for pages 1 to the page count |
| SavedList.PagesPrefix | components/SavedItineraries.tsx:36-39 | pages 1 to k together are the first `min(5k, n)` entries |
| SavedList.PagesCoverList | components/SavedItineraries.tsx:36-39 | all pages in order are the whole list: none is shown twice, none is missed |
| SavedList.StepsText | components/SavedItineraries.tsx:73-74 | the step label is empty exactly for two points or fewer |
| SavedList.StepsTextShape | components/SavedItineraries.tsx:73-74 | the step label is empty exactly for two points or fewer; otherwise its number reads back as the length minus 2, and the word is singular exactly for one step |
| SavedList.ClampPage | components/SavedItineraries.tsx:41-45 | the clamped page is a page that exists, and equals the current page when that exists |
| SavedList.ClampedPageNotEmpty | components/SavedItineraries.tsx:35-39 | with the page clamped, a non-empty list never shows an empty page |
| SavedList.StrandedAfterShrink | components/SavedItineraries.tsx:35-45 | as written, page 2 of a list shrunk from 6 to 5 entries is empty and the page controls are hidden |
| SavedList.SavedListView.constructor | components/SavedItineraries.tsx:20-22 | the view starts with no search term, ascending, on page 1 |
| SavedList.SavedListView.PageCount | components/SavedItineraries.tsx:35 | the page count is 0 exactly when nothing matches, and its pages hold every match; `SavedList.TotalPages` pins it to the ceiling of n/5 |
| SavedList.SavedListView.Shown | components/SavedItineraries.tsx:36-39 | the current page shows at most five entries, each stored and matching the search term; `SavedList.PageContents` gives the slice and `SavedList.StrandedAfterShrink` the empty page it can fall on |
| SavedList.SavedListView.ShownClamped | components/SavedItineraries.tsx:36-39 | the corrected view shows a non-empty page whenever some entry matches |
| SavedList.SavedListView.PageChange | components/SavedItineraries.tsx:41-45 | the new page is taken exactly when it lies between 1 and the page count; the term and the order are kept |
| SavedList.SavedListView.ToggleSortOrder | components/SavedItineraries.tsx:47-49 | the direction flips; the term and the page are kept |
| SavedList.SavedListView.SearchChange | components/SavedItineraries.tsx:60-63 | a new term goes back to page 1 |
| SavedList.FlipTwice | components/SavedItineraries.tsx:47-49 | toggling twice restores the direction |
| Session.FindById | App.tsx:108 | `find` gives nothing exactly when no entry has the id; otherwise the first entry with it |
| Session.ReplaceById | App.tsx:117-119 | the `map` keeps the size and replaces exactly the entries with that id |
| Session.ReplaceByIdSpec | App.tsx:117-119 | replacing an entry under its own id keeps the ids unique and position by position, keeps every other entry, and the new entry is found |
| Session.RemoveById | App.tsx:139 | the removal never grows the list |
| Session.RemoveByIdKeeps | App.tsx:139 | every entry left comes from the list and has another id |
| Session.RemoveByIdSpec | App.tsx:138-143 | the removal keeps exactly the entries with another id; without the id nothing changes; unique ids stay unique, one entry goes exactly when the id is present, and the entries before and after it stay in order |
| Session.RemoveByIdAppend | App.tsx:139 | the removal works piece by piece, so the entries it keeps stay in their order |
| Session.RemoveByIdSlot | App.tsx:138-143 | with unique ids, deleting the entry at position k leaves the entries before it followed by those after it |
| Session.LoadedFrom | App.tsx:108 | the loaded itinerary has the loaded id and is stored, and is found whenever a non-zero loaded id is stored |
| Session.UpdateTarget | App.tsx:109 | a save overwrites exactly when the loaded itinerary exists and the form still carries its name |
| Session.Upsert | App.tsx:105-128 | the saved list keeps its size on an update and grows by one otherwise; `Session.UpsertSpec` states the contents |
| Session.UpsertSpec | App.tsx:105-128 | an update keeps the size and the ids and stores the new request and response under the loaded id; otherwise one entry with the fresh id is appended and the earlier entries stay; ids stay unique |
| Session.InitialItineraryRequest | App.tsx:16-21 | the blank form: no name, by car, empty start and destination, no position |
| Session.CreateInitialRequest | index.tsx:1147-1155 | the two points of the bundled blank form have distinct ids |
| Session.InitialRequestsAgree | index.tsx:1147-1155 | both revisions start from the same blank form |
| Session.BlankForms | App.tsx:16-21 | in the string revision a blank form is exactly `initialItineraryRequest`; `createInitialRequest` gives a blank form; every bundled blank form has the same values, name, mode and position |
| Session.InitialLanguage | App.tsx:26-36 | a supported stored code gives its language; otherwise a supported primary subtag of the browser language gives that language, and English comes only when that subtag is not supported |
| Session.InitialLanguageSpec | App.tsx:26-36 | a stored supported code wins; a stored value that is not supported, the empty one included, counts as nothing stored; then a browser language `<code>` or `<code>-<region>` of a supported code gives that language, and an unsupported one gives English |
| Session.AppSession.constructor | App.tsx:40-46 | the session starts with a blank form (no name, by car, two empty points, no position), no response, not loading, no error, nothing saved, no message, nothing loaded |
| Session.AppSession.LoadedItinerary | App.tsx:153 | the loaded itinerary is stored and carries the non-zero loaded id, and is found whenever such an id is stored |
| Session.AppSession.IsSavedItineraryLoaded | App.tsx:155 | the flag is set whenever an itinerary is loaded |
| Session.AppSession.IsUpdate | App.tsx:153-154 | `isUpdate` holds exactly when the loaded itinerary exists and the form carries its name |
| Session.AppSession.LangChange | App.tsx:67-70 | only the language changes |
| Session.AppSession.RequestChange | App.tsx:72-78 | the request is replaced and any shown response is cleared |
| Session.AppSession.Generate | App.tsx:80-95 | the request is stored; a success shows the response with no error, a failure shows the error with no response; loading ends |
| Session.AppSession.NewItinerary | App.tsx:97-103 | a blank form (no name, by car, two empty points, no position), no response, no error, nothing loaded; the saved list is kept |
| Session.AppSession.Save | App.tsx:105-136 | no change without a response; otherwise the upsert, the localized update or save confirmation, and a blank form with nothing loaded; ids stay unique |
| Session.AppSession.SuccessTimeout | App.tsx:133-135 | only the confirmation is cleared |
| Session.AppSession.Delete | App.tsx:138-143 | the entries with the id are removed, the others kept in order; the form is reset to a blank form exactly when that id was loaded; ids stay unique |
| Session.AppSession.View | App.tsx:145-151 | the saved request and response are shown, that id is loaded and the error cleared |
| Session.FindUnique | App.tsx:108 | with unique ids, the id of a stored entry finds that entry |
| Session.ViewThenSaveUpdates | App.tsx:105-151 | viewing a stored entry with a non-zero id and saving it unchanged updates it in place and keeps the size |
| Session.RenamedSaveAppends | App.tsx:109-127 | a loaded itinerary saved under another name is kept, and the save appends a new entry |

## Left out

- Rendering, JSX, CSS, icons and the language switcher are user interface, not logic.
- The model call and the API key are network and a foreign library. The call's outcome is a
  parameter (`Query.ApiOutcome`), and so is whether a key is configured.
- Reading and writing `localStorage` and `JSON.parse`/`JSON.stringify` are I/O. The saved list
  lives in memory, and the stored and browser languages are parameters.
- Geolocation and the `toFixed(4)` text of its coordinates use a browser API and floating point.
- `Date.now()` ids are clock readings. `Form.AddStep`, `Session.CreateInitialRequest` and
  `Session.AppSession.Save` take the id as a parameter. Uniqueness of a fresh id is a
  precondition there, but real clock readings can repeat within one millisecond.
- `setTimeout`, `window.scrollTo`, `alert` and the batching of asynchronous state updates are
  timing. The confirmation's disappearance is its own step, `Session.AppSession.SuccessTimeout`.
  `Session.AppSession.Generate` takes the awaited result as one step, with no interleaving.
- Session.AppSession.constructor: which route point counts as empty is a parameter fixed when
  the session is made (`p === ''` for the string revision, `p.value === ''` for the bundled one).
  With the string test, `Session.BlankForms` pins the blank form to `initialItineraryRequest`; the
  ids of a bundled blank form are clock readings and stay free.
- Session.AppSession.Generate: the message of a thrown non-`Error` value is part of the `result`
  parameter, not computed here.
- `toLowerCase` covers ASCII letters only. The mode labels' only non-ASCII letters are already
  lower case (proved per language), so the query text is exact. Unicode case mapping of
  itinerary names and search terms is not modelled.
- `localeCompare` is an abstract comparison function passed as a parameter.
- SavedList.SortSorted: sortedness is proved only for a comparison that is total
  (`SavedList.Total`). Stability and the engine's sorting algorithm are not modelled. The sort is
  an insertion sort over a sequence that stands in for `Array.prototype.sort`.
- Parcours.Move: requires both indices to be row indices, which are the only ones the form
  passes. `splice` with other indices is not modelled.
- Form.ChangeValueStandalone: requires the index to be a slot of the list. Assigning past the end
  of a JavaScript array, which leaves holes, is not modelled.
- Urls.Url.constructor: requires a base without `?` or `#`, as the one directions base has. URL
  parsing of other bases is not modelled.
- Query.BuildUserQuery: `None` stands for the `TypeError` that reading the label of `Transit`
  raises. `Query.MissingLabelMessage` is a stand-in for the engine's own message text.
- The reference decoders in `PercentEncoding` and `Urls` are strict: they reject inputs browsers
  would accept, such as a stray `%`. They serve only as the inverse of the encoders.
- The standalone display and service are modelled on route values, as noted above.

## Findings

| source | as written | input that shows it | evidently intended | confidence | as-written member | corrected member |
|---|---|---|---|---|---|---|
| components/ItineraryForm.tsx:100 | the strip pattern lists only the French and English suffixes | name `"X"`, German active, prepare-return twice: `"X - Rückfahrt - Rückfahrt"` | strip every language's suffix, as the bundled revision does (index.tsx:786-788), so the name keeps one suffix | not executed | ReturnTrip.StandaloneTwiceAccumulates | ReturnTrip.ReturnNameTwice |
| components/SavedItineraries.tsx:35-45 | the current page is kept when the list shrinks beneath it | six entries, page 2 open, delete the sixth: page 2 is empty and the page controls (shown only for more than one page, line 97) are hidden | clamp the page to the last existing page | not executed | SavedList.StrandedAfterShrink | SavedList.ClampedPageNotEmpty |
