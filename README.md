# Student webring: validator and year-grouped renderer

This project models the two pieces of data logic of a small student webring:

- **The `students.json` validator** (`validate-students.js`). Every entry of the candidate
  array is checked against the data contract:
  - the four fields `name`, `website`, `year` and `about` must be present and not null;
  - `about` may be at most 50 UTF-16 code units long;
  - `website` must be an `http:` or `https:` URL;
  - `year` must be an integer in [2000, 2100].

  Every problem of every entry is collected. Nothing stops the scan. When a baseline array is
  given, the candidate may have at most one row more than the baseline and never fewer. The
  script prints messages and exits with a status. The model instead returns the ordered list of
  violations (`Validator.Violation`), and the run passes exactly when that list is empty.
- **The webring page** (`app.js`). The page accepts the server's payload only when `status` is
  `"ok"` and `rows` is an array. `render` then does three things:
  - it indexes the rows by year in a dictionary;
  - it sorts the distinct years from the most recent down;
  - it emits one section per year. Each section is a heading with the year, then one entry per
    row in input order. An entry is a link (the name, pointing at the website, opened in a new
    tab with `noopener noreferrer`), the separator `" | "` and the fact preceded by a space.

Both halves are imperative in the source, and the model keeps that shape:
- `Validator.CheckEntry` and `Validator.ValidateEntries` are the `forEach` callback and the
  loop over entries. Each appends to a violation sequence.
- `Webring.IndexByYear` fills a `map` in a loop.
- `Webring.SortedKeysDescending` produces the sorted key sequence.
- `Webring.EmitSections` and `Webring.BuildSection` are the two nested loops that append
  sections and entries.

Each method is proved equal to a specification function: `EntryViolations`,
`EntriesViolations`, `Validate`, `GroupByYear` and `Layout`. The lemmas state what the source
promises about those functions.

Modules:
- `Wrappers` holds `Option`.
- `Json` holds a JSON value and an entry. An entry is a map from the four keys the validator
  reads to values. A key that is not in the map reads as `Undefined`, as `entry[field]` does in
  JavaScript, and `Null` is an explicit JSON `null`. Numbers are split into integers and
  everything else numeric (`NonIntNumber`), which is the distinction `Number.isInteger` makes.
- `Validator` models `validate-students.js`.
- `Webring` models `app.js`.

The renderer reads `fact` (app.js:60), while the validator requires `about`
(validate-students.js:15). The model keeps them as two different keys, `Json.Field.About` and
`Webring.Student.fact`, as the source does.

The header comment of `validate-students.js` describes the checks as independent. In the code,
`validateEntries` exits the process when any entry failed (line 83), before the baseline is
loaded (lines 92-109). So change-policy violations are reported only when every entry passed.
The model follows the code: see `Validator.Validate` and `Validator.ShapeAndOrder`.

## Model

| member | source | states |
|---|---|---|
| Validator.IsValidYear | validate-students.js:29-32 | true exactly for an integer between 2000 and 2100, both bounds included; every other number, and every non-number, is rejected |
| Validator.IsValidUrl | validate-students.js:19-27 | a value is a valid URL exactly when it is a string whose `trim()` is not empty and which the parser accepts with protocol `http:` or `https:`; a non-string never is |
| Validator.Trim | validate-students.js:20 | `s.trim()` is empty exactly when `s` consists of ECMAScript whitespace only, and a non-empty result neither starts nor ends with whitespace |
| Validator.TrimStart | validate-students.js:20 | the result is the suffix of `s` left after a run of whitespace, and it does not start with whitespace |
| Validator.TrimEnd | validate-students.js:20 | the result is the prefix of `s` left before a run of whitespace, and it does not end with whitespace |
| Validator.Utf16Length | validate-students.js:61-64 | `about.length` counts UTF-16 code units: between one and two per character, exactly one per character when all lie in the Basic Multilingual Plane |
| Validator.ChangePolicy | validate-students.js:98-108 | the baseline check reports nothing exactly when the candidate has the same number of rows as the baseline or one more |
| Validator.MissingFields | validate-students.js:55-60 | the field loop reports at most one violation per listed field, and every one is a missing-field violation for this entry naming a listed field that is undefined or null |
| Validator.AboutCheck | validate-students.js:61-67 | at most one violation, and none unless `about` is a string; a string of more than 50 characters always fails, one of at most 25 never does, and a reported violation carries the limit 50 and an actual length above 50 |
| Validator.WebsiteCheck | validate-students.js:68-74 | an absent website is never checked; a present non-string (null included) always fails; a string passes exactly when it is not blank and parses with protocol `http:` or `https:`; the only possible report is one invalid-website violation naming the entry |
| Validator.YearCheck | validate-students.js:75-81 | nothing is reported exactly when the year is absent or an integer in [2000, 2100]; otherwise exactly one invalid-year violation carrying both bounds |
| Validator.EntryViolations | validate-students.js:54-82 | one entry yields at most seven violations, each about that entry at its 1-based position |
| Validator.EntriesViolations | validate-students.js:53-83 | every violation reported for the array is about an entry, at a position between 1 and the array's length |
| Validator.Conforms | validate-students.js:3-8 | a conforming entry has a non-blank string website, an integer year in [2000, 2100] and, when `about` is a string, at most 50 characters in it |
| Validator.Validate | validate-students.js:48-109 | a failing run always carries at least one violation |
| Validator.CheckEntry | validate-students.js:54-82 | the callback for one entry reports exactly `EntryViolations`: the missing fields in the order name, website, year, about, then the length, URL and year checks; it reports nothing exactly when the entry conforms to the contract |
| Validator.ValidateEntries | validate-students.js:53-83 | the loop over all entries reports the concatenation of every entry's report; `failed` is set exactly when something was reported, which happens exactly when some entry does not conform |
| Validator.RunValidation | validate-students.js:89-109 | the script's flow (non-array candidate, entry checks, then the optional baseline and its change policy) computes exactly `Validate` |
| Validator.MissingFieldsEmptyIff | validate-students.js:55-60 | no missing-field violation is reported exactly when every listed field is present and not null |
| Validator.MissingFieldsMember | validate-students.js:55-60 | a field is reported missing exactly when it is listed and is undefined or null, and the field loop reports nothing but missing-field violations for this entry |
| Validator.MissingFieldsNoRepeats | validate-students.js:55-60 | over a field list without repeats (such as the four required fields) no violation is reported twice, so each missing field is reported exactly once |
| Validator.EntryViolationsEmptyIff | validate-students.js:54-82 | an entry's report is empty exactly when the entry conforms to the contract |
| Validator.AllConformIffNoViolations | validate-students.js:53-83 | the array passes the entry checks exactly when every entry conforms |
| Validator.ReportsEveryProblem | validate-students.js:53-82 | nothing is short-circuited: a violation is in the array's report exactly when it is in the report of one of its entries at that entry's 1-based position |
| Validator.NameOnlyEntry | validate-students.js:55-60 | the entry `{name: "A"}` yields exactly three violations: website, year and about missing, in that order |
| Validator.AboutLengthReported | validate-students.js:61-67 | a length violation is reported exactly when `about` is a string of more than 50 UTF-16 units, and it then carries the limit 50 and the actual length; at 50 units, or when `about` is not a string, there is none |
| Validator.NullVersusAbsentField | validate-students.js:56-81 | a null website or year is reported both as missing and as invalid; an absent one only as missing |
| Validator.ValidatePassIff | validate-students.js:89-109 | the run passes exactly when the candidate is an array of conforming entries and, if a baseline is given, the baseline is an array and the candidate has the same number of rows or one more |
| Validator.ChangePolicyOnLengths | validate-students.js:98-108 | with conforming entries, more than one added row fails and reports the number added, fewer rows fail as removed rows, and zero or one added row passes; only the lengths are compared |
| Validator.ShapeAndOrder | validate-students.js:48-97 | a non-array candidate is one fatal violation and no entry is checked; entry violations are reported without the baseline being consulted; a non-array baseline after passing entries is one fatal violation |
| Webring.Bucket | app.js:29-30 | the list kept for a year holds only input rows of that year and is no longer than the input |
| Webring.GroupByYear | app.js:26-33 | the groups come strictly descending by year, each year occurs in the input, and each group's members are exactly that year's rows in input order |
| Webring.EntryOf | app.js:45-64 | an entry has three children whose text is the name, the separator (a bar between two spaces), then a space and the fact; only the first is a link, and it points at the website with target `_blank` and rel `noopener noreferrer` |
| Webring.SectionOf | app.js:36-65 | a section's heading is the group's year and it holds one entry per member, in order, each linking the member's name to the member's website and followed by the fact |
| Webring.Layout | app.js:35-69 | one section per group, in the same order, each headed by its group's year and holding as many entries as the group has members |
| Webring.DistinctYearsDescending | app.js:33 | the sorted keys are strictly descending (so distinct) and are exactly the years that occur in the input |
| Webring.InsertDescending | app.js:33 | inserting a year into a strictly descending list keeps it strictly descending and adds exactly that year |
| Webring.DescendingUnique | app.js:33 | two strictly descending lists with the same elements are equal, so the sorted key list is determined by the key set |
| Webring.IndexByYear | app.js:26-31 | the dictionary has a key exactly for every year that occurs, and the list under each key is `Bucket`: that year's rows in input order |
| Webring.SortedKeysDescending | app.js:33 | the keys come out strictly descending, each key of the dictionary exactly once |
| Webring.BuildSection | app.js:36-65 | a year's section has the year as heading and, per row of its list and in order, the entry link, separator, fact |
| Webring.EmitSections | app.js:35-69 | the sections are appended in the order of the sorted years, one per year, each built from that year's list |
| Webring.Render | app.js:25-70 | the container ends up holding exactly `Layout(GroupByYear(students))` |
| Webring.AcceptPayload | app.js:12-14 | a payload is accepted exactly when `status` is the string `"ok"` and `rows` is an array, and then its rows are what is rendered |
| Webring.ShowResponse | app.js:7-23 | a non-OK HTTP response shows "Could not load the webring. Failed to load webring"; a rejected payload shows "Could not load the webring. Invalid response from server" and renders nothing; an accepted payload is rendered in full |
| Webring.GroupKeys | app.js:33 | group keys are strictly descending (so distinct), they are exactly the years of the input, and no group is empty |
| Webring.EveryStudentInItsGroup | app.js:26-31 | every input row lies in a group whose key is its year, only groups with its year contain it, and exactly one group does |
| Webring.GroupingNoLoss | app.js:26-31 | the groups together hold exactly the input rows, each as many times as it occurs, so the group sizes sum to the input length |
| Webring.BucketIsOrderedRestriction | app.js:27-30 | a year's list is the input restricted to the strictly increasing indices whose row has that year, and every such index is used |
| Webring.GroupingStable | app.js:44 | each emitted group lists exactly the rows of its year, in their input order |
| Webring.EmptyInputNoGroups | app.js:27-35 | an empty input yields no groups and an empty page |
| Webring.LayoutShape | app.js:39-65 | section `i` carries the year of group `i` as its heading and one entry per member in order; each entry is the link (name, website, `_blank`, `noopener noreferrer`), then the separator (a bar between two spaces), then `" "` followed by the fact |

## Left out

- `loadJson` (validate-students.js:34-46): file existence, file reading and JSON parsing are I/O. The model's inputs are already-parsed documents (`Validator.Document`).
- Command-line handling, console messages and exit codes (validate-students.js:86-87, 111 and every `console.error`/`process.exit`). Each message is a `Validator.Violation` carrying the values the message prints, and exiting becomes returning `Fail`. The argument that names the baseline becomes an `Option`. An empty argument, which JavaScript treats as absent, is not distinguished.
- Validator.IsValidUrl: the WHATWG `URL` constructor is a foreign library. It is a function parameter `parse` that yields either `Unparseable` (the constructor throws) or the parsed protocol.
- A `null` or other non-object element of the candidate array (reading a field of `null` throws a `TypeError` in JavaScript) is not modelled. Every element is an object, given by the keys it has.
- Validator.Utf16Length: a JSON string can hold an unpaired surrogate such as `"\uD800"`. JavaScript's `.length` counts it as one unit, and it also reaches `trim()` and the URL parser. Dafny strings hold only Unicode scalar values, so the model cannot represent such a string.
- Validator.Validate: its own contract states only that a failure is never empty. What it computes is stated by `ValidatePassIff`, `ShapeAndOrder` and `ChangePolicyOnLengths`.
- JavaScript number semantics: floating point, `NaN`, and string coercion of dictionary keys by `Object.keys(...).map(Number)`. A year in the renderer is an integer (`Webring.Student.year`), and non-integer numbers are one opaque case (`Json.Value.NonIntNumber`) in the validator.
- Webring.Render: rows are typed records. The text JavaScript would produce from a missing or non-string field (for example `" undefined"` for a row with no `fact`) is not modelled.
- Webring.SortedKeysDescending: the engine's sort algorithm is not visible. The method repeatedly takes the largest remaining key, and its contract states only the result every correct descending sort must give.
- `fetch`, the JSON decoding of the response body, network failures whose message comes from the platform, and the loading and error CSS classes (app.js:2-6, 15, 20-21): asynchronous I/O and browser UI. The DOM elements are replaced by the values `SectionView`, `EntryView` and `Inline`.
- Webring.ShowResponse: a response body that decodes to `null` makes `data.status` (app.js:12) throw a `TypeError`. The catch block (app.js:19-22) then shows "Could not load the webring. " followed by the platform's message. A `Webring.Payload` is always a record, so this case cannot be expressed.
- `netlify/functions/webring.js`: a network proxy with origin checks and an upstream request. It has no data logic and is not part of this model.
