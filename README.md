# iOS app compliance checker — analysis and report grouping

The checker takes an uploaded iOS app archive and finds its `Info.plist`
manifest. It reads the manifest's top-level keys and evaluates a catalogue
of rules against them. Each rule passes when the manifest has that rule's
key. The results page groups the rule results under section headings.

This project models three pieces of that pipeline and proves properties
about them:

- **Manifest lookup** (`pages/api/upload.ts`).
  - The first archive entry whose name ends with `Info.plist` wins. The
    match is exact and case-sensitive.
  - An archive with no such entry ends the request as "not found".
- **Rule evaluation** (`pages/api/upload.ts`). This is `rules.map` over the
  decoded manifest:
  - one result per rule, in catalogue order;
  - the fields are copied from the rule;
  - `passed` is true exactly when the rule's key is one of the manifest's
    keys;
  - the section defaults to `"Other"` when it is absent or empty.
- **Report grouping** (`pages/index.tsx`).
  - A `reduce` is meant to file each result under `r.section || 'Other'`
    in a dictionary, and `Object.entries` then lists the groups. The model
    states this intended grouping, whose reduce tests for an own key. The
    code as written tests `!acc[section]` and throws on section names
    inherited from `Object.prototype`; that code is modelled too
    (`ResultsPage.GroupAsWritten`). `ResultsPage.GroupAsWrittenSpec`
    proves the two agree on every other input.
  - Each group keeps its results in input order.
  - Groups come in the dictionary's own-key order. An ordinary JavaScript
    object enumerates its keys this way: keys that are array indices
    come first, in ascending numeric order. All other keys follow, in the
    order they were created. This is OrdinaryOwnPropertyKeys, section
    10.1.11.1 of ECMA-262.

Files:

- `js_object.dfy` (module `JsObject`): the own-key order of an object,
  given its keys in creation order.
- `upload_api.dfy` (module `UploadApi`) covers the upload side:
  - the data model: archive entries, plist values, rules, results and
    request outcomes;
  - the manifest lookup;
  - rule evaluation;
  - the analysis from archive to outcome.
- `results_page.dfy` (module `ResultsPage`) covers the page side:
  - the grouping as an imperative method: a loop that updates a map
    accumulator and the order in which its keys were created;
  - the specification functions it is proved against;
  - the lemmas about the grouped report.

### Group order

Groups come in first-seen order only among names that are not array
indices. Names that are array indices, such as `"2"`, come first, in
numeric order. `ResultsPage.ReportOrder` and
`ResultsPage.ReportIndexSectionsFirst` state the two halves.

## Model

| member | source | states |
|---|---|---|
| UploadApi.FindManifest | pages/api/upload.ts:53 | The entry found ends with `Info.plist`, and no earlier entry does. Nothing is found exactly when no entry's name ends with `Info.plist`. |
| UploadApi.FindManifestIgnoresLaterEntries | pages/api/upload.ts:53 | Once an archive contains a manifest entry, appending more entries, including more matches, does not change which entry is found. |
| UploadApi.EndsWithIsSuffix | pages/api/upload.ts:53 | `endsWith` holds exactly when the string is some prefix followed by the suffix. So a manifest name (`IsManifestName`) is any path followed by `Info.plist`. |
| UploadApi.ManifestNameExamples | pages/api/upload.ts:53 | `Info.plist`, `Payload/App.app/Info.plist` and a framework's `Info.plist` match. `info.plist`, `INFO.PLIST` and `Info.plist.bak` do not: the match is exact and case-sensitive. |
| UploadApi.OrOther | pages/api/upload.ts:73 | `s \|\| 'Other'` on a string is `"Other"` for the empty string and `s` itself otherwise. It is never empty. |
| UploadApi.SectionOf | pages/api/upload.ts:73 | `rule.section \|\| 'Other'`: `"Other"` when the rule has no section, and the section with the empty string defaulted when it has one. It is never empty. |
| UploadApi.EvaluateRule | pages/api/upload.ts:66-74 | `id`, `description`, `key` and `severity` are copied from the rule. `passed` holds exactly when the rule's key is a key of the manifest. The section is the rule's when that is a non-empty string, and `"Other"` when it is absent or empty. |
| UploadApi.Evaluate | pages/api/upload.ts:65-75 | There are exactly as many results as rules, and result i is the evaluation of rule i. |
| UploadApi.EvaluateAppend | pages/api/upload.ts:65-75 | Evaluating two catalogues one after the other gives the concatenation of their evaluations: each rule is evaluated independently of the others. |
| UploadApi.EvaluateDependsOnKeysOnly | pages/api/upload.ts:66 | Two manifests with the same keys give the same results. The values stored under the keys are never inspected. |
| UploadApi.EvaluateMonotone | pages/api/upload.ts:66-71 | A manifest with more keys passes every rule that a manifest with fewer keys passes. Apart from `passed`, the two results are identical. |
| UploadApi.PassedCountIsKeyPresentCount | pages/api/upload.ts:66-71 | The number of passing results equals the number of rules whose key the manifest has. |
| UploadApi.Analyze | pages/api/upload.ts:53-78 | The intended analysis, with the own-key test of `Evaluate`. The outcome is "not found" exactly when no entry name ends with `Info.plist`. Otherwise the first matching entry decides the outcome: decoding fails exactly when that entry does not decode; otherwise the results are the evaluation of the whole catalogue against that entry's manifest, so there is one result per rule. |
| UploadApi.EvaluateAsWritten | pages/api/upload.ts:66 | Calling `plistData.hasOwnProperty` through the manifest fails exactly when the catalogue is not empty and the manifest has its own key `"hasOwnProperty"`. Whenever it does not fail, it agrees with `Evaluate`. |
| UploadApi.AnalyzeAsWritten | pages/api/upload.ts:53-86 | The handler as written answers exactly as `Analyze` does, with one exception: when the first manifest entry decodes to a manifest with its own key `hasOwnProperty` and the catalogue is not empty. Then the throwing `hasOwnProperty` call lands in the catch, and the outcome is a failure (500) where `Analyze` reports results. |
| UploadApi.ShadowedHasOwnPropertyFails | pages/api/upload.ts:66 | A manifest with the keys `hasOwnProperty` and `CFBundleIdentifier` gets no report from the code as written. The intended evaluation passes its bundle-identifier rule. |
| JsObject.OwnKeys | pages/index.tsx:33 | `Object.entries` lists exactly the created keys, and as many keys as were created. The lemmas below pin down their order. |
| JsObject.OwnKeysPermutation | pages/index.tsx:33 | `Object.entries` lists each created key exactly as often as it was created. Distinct keys stay distinct. |
| JsObject.OwnKeysIndicesFirst | pages/index.tsx:33 | Every array-index key comes before every other key, in ascending numeric order. |
| JsObject.OwnKeysStringOrder | pages/index.tsx:33 | Keys that are not array indices are listed in creation order. |
| JsObject.OwnKeysWithoutIndices | pages/index.tsx:33 | When no key is an array index, the listing order is exactly the creation order. |
| JsObject.OwnKeysExample | pages/index.tsx:33 | Keys created as `b, 10, a, 2` are listed as `2, 10, b, a`. |
| ResultsPage.SectionKey | pages/index.tsx:35 | `rule.section \|\| 'Other'` on the page: the result's section when it is not empty, `"Other"` when it is. Never empty. |
| ResultsPage.Entries | pages/index.tsx:33 | `Object.entries` returns one pair per created key. Pair j is named by key j of the own-key order and holds that key's value in the dictionary. |
| ResultsPage.Accumulate | pages/index.tsx:34-39 | The intended reduce (own-key test in place of `!acc[section]`; `GroupAsWrittenSpec` links it to the code as written). Its loop ends with a dictionary that maps each section to its results in input order. Its keys are created in the order each section's first result occurs. |
| ResultsPage.AccOfSnoc | pages/index.tsx:35-37 | One step of the intended reduce (own-key test) on the dictionary: a section that is not yet one of its keys starts with an empty list. The result is then appended to its section's list, and the other sections are unchanged. |
| ResultsPage.FirstSeenSnoc | pages/index.tsx:36 | One reduce step on the key order: a new section becomes the newest key, and an existing one changes nothing. |
| ResultsPage.GroupBySection | pages/index.tsx:33-40 | The intended grouping (own-key test, then `Object.entries`) produces exactly the specified report. `GroupAsWrittenSpec` shows that the code as written gives the same groups unless a section key is inherited from `Object.prototype`, in which case it throws. |
| ResultsPage.EntriesOfAccumulator | pages/index.tsx:33 | Listing a dictionary that maps each first-seen section to its members, in own-key order, gives the report. |
| ResultsPage.PositionsExact | pages/index.tsx:37 | A section's positions are in range and strictly increasing. They are exactly the input positions whose result has that section key. |
| ResultsPage.MembersAtPositions | pages/index.tsx:37 | A section's group holds the results at its positions, in order. Together with `PositionsExact`: the group holds exactly its section's results, and input order is preserved. |
| ResultsPage.MembersHaveSection | pages/index.tsx:35-37 | Every member of a section's group has that section as its key (`r.section \|\| 'Other'`). |
| ResultsPage.FirstSeenMembers | pages/index.tsx:36 | The created keys have no duplicates. A section is a key exactly when at least one result is filed under it. |
| ResultsPage.FirstSeenOrder | pages/index.tsx:36 | Each created key has a first result, and keys are created in the order of their first results' positions. |
| ResultsPage.ReportPartition | pages/index.tsx:34-39 | The groups together hold exactly the input results as a multiset. Every result lands in exactly one group, and the group sizes add up to the input length. |
| ResultsPage.ReportNames | pages/index.tsx:36-37 | A section has a group exactly when some result is filed under it. Group names are pairwise distinct. |
| ResultsPage.ReportGroups | pages/index.tsx:35-37 | Each group holds exactly its section's results and is never empty. All its members carry the group's name as their section key. |
| ResultsPage.ReportOrder | pages/index.tsx:33-39 | Groups whose names are not array indices come in the order their first results occur. When no section name is an array index, the whole report is in first-seen order. |
| ResultsPage.ReportIndexSectionsFirst | pages/index.tsx:33 | Groups whose names are array indices come before all other groups, in ascending numeric order. |
| ResultsPage.PanelShown | pages/index.tsx:88 | `grouped.length > 0`: the panel is shown exactly when there is a group. |
| ResultsPage.DisplayedResults | pages/index.tsx:29 | `result.results \|\| []`: a response with results keeps them. A not-found or failure response, which carries no `results`, displays none. |
| ResultsPage.ReportEmpty | pages/index.tsx:88 | There are no groups exactly when there are no results, so the results panel is shown exactly when there is a result. |
| ResultsPage.PanelShownAfterAnalysis | pages/index.tsx:29 | With the intended analysis and grouping, the page shows results after a request exactly when the analysis produced results for a non-empty catalogue. "Not found" and decoding failures show nothing. |
| ResultsPage.SectionKeyOfEvaluated | pages/index.tsx:35 | The page files each evaluated result under the section the endpoint assigned from its rule. |
| ResultsPage.ReportExample | pages/index.tsx:33-39 | Sections `[A, B, A]` give groups `[A, B]`, and A holds both of its results in order. |
| ResultsPage.SecurityOtherScenario | pages/index.tsx:33-39 | Rules in sections `Security`, none, `Security` give the groups `Security` (first and third results) and then `Other` (the second). |
| ResultsPage.BundleIdentifierScenario | pages/index.tsx:33-40 | A catalogue with one bundle-identifier rule in section `Identity` reports that one section. The rule passes exactly when the manifest has the key. |
| ResultsPage.ReduceAsWritten | pages/index.tsx:34-39 | The reduce as written: when it finishes, its dictionary's keys are exactly the keys it created. |
| ResultsPage.GroupAsWritten | pages/index.tsx:33-40 | The grouping as written throws exactly when its reduce throws, because `Object.entries` never does. Otherwise it lists one group per created key. |
| ResultsPage.ReduceAsWrittenState | pages/index.tsx:34-39 | The reduce as written fails exactly when some result's section key is a member inherited from `Object.prototype`. Otherwise it builds the intended dictionary and key order. |
| ResultsPage.GroupAsWrittenSpec | pages/index.tsx:33-40 | The grouping as written throws exactly when a section key is a member inherited from `Object.prototype`. Otherwise it renders the same groups as the intended grouping. |
| ResultsPage.PrototypeSectionThrows | pages/index.tsx:36-37 | A single result in section `constructor` makes the grouping as written throw, while the intended grouping gives it a group of its own. |

## Left out

- HTTP handling is left out: the method check, `formidable` multipart parsing, the upload directory, status codes, JSON responses and `console` logging (pages/api/upload.ts:14-47, 77-87). The outcome datatype stands for the three responses the analysis can end in.
- ZIP decoding with `AdmZip` is left out because it is a foreign library. The archive arrives as its ordered list of (name, bytes) entries. This also leaves out two failure paths, both of which answer 500:
  - `new AdmZip` on a file that is not a ZIP archive (pages/api/upload.ts:49-50);
  - `getData()` failing to inflate the manifest entry (pages/api/upload.ts:59).
- `plist.parse` and UTF-8 decoding are left out because they are a foreign library. The decoder is a function parameter of `UploadApi.Analyze`. `None` stands for a decoder that throws, which the handler turns into a 500.
- Reading `rules.json` and `JSON.parse` are left out because they are file I/O and a library parser. The catalogue is a list of rules given as input, so a catalogue file that is missing or malformed (another 500) is not modelled.
- Rule fields that are not strings are not modelled. JSON allows them, but the model types `id`, `key`, `description`, `severity` and `section` as strings, and `section` as optional.
- A manifest key `__proto__` is not modelled. In JavaScript, assigning it never creates an own key: a dictionary value replaces the decoded object's prototype, and a scalar value is ignored.
- The React state, `fetch`, the form inputs and the JSX rendering are left out as UI and network code. Only the `grouped.length > 0` panel condition and `result.results || []` are modelled.
- Evaluation leaving the manifest and the rules unchanged needs no proof. Every operation here takes and returns immutable values.
- The code hardens nothing: duplicate rule ids are not rejected, decompression size is not capped, and there is no timeout or cancellation. The model asserts none of these.
- `Object.prototype` is modelled by its standard own properties (`ResultsPage.ObjectPrototypeKeys`). Properties added to it at run time by other scripts are not.

## Findings

| source | as written | input that shows it | evidently intended | confidence | as-written member | corrected member |
|---|---|---|---|---|---|---|
| pages/index.tsx:36-37 | `if (!acc[section]) acc[section] = []` also finds members that `{}` inherits from `Object.prototype`. The list is not created, and `acc[section].push` is not a function, so rendering throws a TypeError. | One result whose rule has section `"constructor"` (also `"toString"`, `"hasOwnProperty"`, `"__proto__"`, …) | Every section gets its own list and its own group | high, not executed | ResultsPage.GroupAsWritten (with ResultsPage.PrototypeSectionThrows) | ResultsPage.GroupBySection |
| pages/api/upload.ts:66 | `plistData.hasOwnProperty(rule.key)` looks the method up on the manifest object. A manifest whose own key `hasOwnProperty` holds a plist value shadows it, the call throws, and the handler answers 500. | An `Info.plist` with a top-level key `hasOwnProperty`, checked against any non-empty catalogue | An own-key test that does not depend on the manifest's keys, e.g. `Object.prototype.hasOwnProperty.call(plistData, key)` | high, not executed | UploadApi.EvaluateAsWritten, UploadApi.AnalyzeAsWritten (with UploadApi.ShadowedHasOwnPropertyFails) | UploadApi.Evaluate |
