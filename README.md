# Document Manager extensions — a Dafny model

This project models the two pieces of decision logic in the SOLIDWORKS
Document Manager extension methods (`Extensions.cs`):

* `GetExternalReferencesAndCount`: given an open document, check that its
  version is at least 2200, read its configuration names, default a null or
  blank configuration name to the first listed one, check that the name is
  listed, resolve the configuration, then walk its component array and
  count the components per lower-cased file name, skipping suppressed
  components when asked to. Each of the four exceptions it throws is a
  variant of `Extension.Error`, returned as `Failure` in a `Result`; no
  partial map is ever returned with an error.
* The start of `OpenDocument`: a null manager throws, and the lower-cased
  file name's ending (`sldprt`, `sldasm`, `slddrw`, tested without a dot)
  picks the document type handed to `GetDocument`; any other name returns
  null without calling the Document Manager.

The Document Manager is replaced by plain data. A `Document` holds the
version, the configuration names (`None` for a null array) and a total
function from a name to the configuration (`None` when the manager returns
nothing usable). A `Configuration` holds its component array (`None` when
`GetComponents()` is not an array). A `Component` holds a path and a
suppression flag. A C# `null` string is `None` in an `Option<string>`.

Files:

* `wrappers.dfy` — `Option` and `Result`.
* `text.dfy` — the .NET string operations used: `char.IsWhiteSpace`,
  `string.IsNullOrWhiteSpace`, `ToLower` on ASCII letters, `EndsWith` and
  `Path.GetFileName`, with lemmas on file names and letter case.
* `counting.dfy` — the reference definition of the dictionary the walk
  builds. `Tally(keys)` maps every key to its number of occurrences, its
  multiplicity in `multiset(keys)`. Lemmas prove that one more key is one
  dictionary update and that the counts add up to the number of keys.
* `extension.dfy` — the data model, the specification function
  `ExternalReferences`, and the method `GetExternalReferencesAndCount`. The
  method follows the source step by step and reassigns the configuration
  name as the source does. It calls `TallyComponents`, which holds the loop
  of lines 58-75, with its `continue` on suppressed components. The file
  also holds the lemmas for each error path and for suppression, and the
  `OpenDocument` classification.

The method is proved equal to `ExternalReferences`. The loop keeps the
dictionary equal to `Tally` of the keys of the components walked so far.
Because the model is a function of its inputs, two calls with the same
document and arguments give the same map.

## Model

| member | source | states |
|---|---|---|
| `Extension.GetExternalReferencesAndCount` | Extensions.cs:28-79 | the method returns exactly `ExternalReferences`: the first failing check's error in the order version, names, listed name, resolution; otherwise the tally of the counted components |
| `Extension.TallyComponents` | Extensions.cs:57-75 | the loop over the component array yields `Tally` of the keys of the counted components: each key mapped to how many counted components carry it |
| `Extension.ExternalReferences` | Extensions.cs:28-79 | on success every stored count is at least 1 |
| `Extension.Counted` | Extensions.cs:62-64 | without `ignoreSuppressed` every component is counted; with it, a component is counted if and only if it is not suppressed |
| `Extension.CountedKeys` | Extensions.cs:58-66 | at most one key per component |
| `Extension.CountedKeysStep` | Extensions.cs:58-73 | walking one more component appends its key when it is counted, and nothing when it is skipped |
| `Extension.CountedKeysMembership` | Extensions.cs:62-73 | a key is tallied if and only if some counted component's path has that key |
| `Extension.SuppressedOnlyIsAbsent` | Extensions.cs:62-64 | with `ignoreSuppressed`, a file name whose every occurrence is suppressed has no entry at all, not an entry with 0 |
| `Extension.CountedKeysConcat` | Extensions.cs:58-75 | the keys of two component arrays back to back are the keys of each in turn |
| `Extension.SuppressedContributesNothing` | Extensions.cs:62-64 | with `ignoreSuppressed`, removing a suppressed component from anywhere in the array leaves the result unchanged |
| `Extension.SuppressionIgnoredWhenNotFiltering` | Extensions.cs:62-66 | without `ignoreSuppressed`, every component is counted and the suppression flags have no effect on the keys |
| `Extension.KeyIgnoresCase` | Extensions.cs:66 | paths that differ only in letter case are counted under the same key |
| `Extension.KeyIgnoresDirectory` | Extensions.cs:66 | a directory ending in a separator, joined to a name without separators, gives the lower-cased name as key |
| `Extension.CountedKeysLength` | Extensions.cs:58-75 | there is exactly one key per counted component |
| `Extension.OldDocumentRefused` | Extensions.cs:32-33 | a version below 2200 gives `UnsupportedVersion` whatever the other arguments |
| `Extension.MissingNamesRefused` | Extensions.cs:34-39 | a supported document with a null name array gives `NamesUnavailable`, whatever name was asked for |
| `Extension.BlankNameMeansFirst` | Extensions.cs:42-43 | a null, empty or white-space name gives the same result as asking for the first listed name |
| `Extension.EmptyNameListNotFound` | Extensions.cs:42-46 | an empty (not null) name array gives `ConfigurationNotFound` for every requested name, blank or not |
| `Extension.UnlistedNameNotFound` | Extensions.cs:45-46 | an explicit name not in the array (exact, case-sensitive match) gives `ConfigurationNotFound` |
| `Extension.UnresolvedConfigurationRefused` | Extensions.cs:48-51 | a listed name whose configuration cannot be obtained gives `ConfigurationResolutionFailed` |
| `Extension.MissingComponentsGiveEmptyMap` | Extensions.cs:53-57 | a configuration whose components are not an array gives success with an empty map |
| `Extension.SuccessCountsComponents` | Extensions.cs:66-77 | on success the keys are exactly the counted components' keys, each count is the number of counted components with that key, and the counts add up to the number of counted components |
| `Extension.Key` | Extensions.cs:66 | the key is the lower-cased file name of the path; it carries no contract of its own, and `KeyIgnoresCase`, `KeyIgnoresDirectory` and `KeyOfPlainName` state its properties |
| `Extension.FirstOrDefault` | Extensions.cs:43 | the first name is returned exactly when the array is not empty, and it is one of the listed names |
| `Extension.SelectedName` | Extensions.cs:42-43 | a name that is not blank is kept; a blank name becomes a listed name, or null only when the array is empty |
| `Extension.Listed` | Extensions.cs:45 | a name is listed if and only if it is non-null and equal to some element of the array |
| `Extension.KeyPositionsStep` | Extensions.cs:58-73 | walking one more component adds its position to the positions counted under a key exactly when it is counted and has that key |
| `Extension.CountedKeysMultiplicity` | Extensions.cs:58-73 | the number of times a key is tallied equals the number of counted components whose path has that key |
| `Extension.SuccessCountsPositions` | Extensions.cs:58-77 | on success the count stored for a key is the number of positions in the component array holding a counted component with that key |
| `Extension.KeyOfPlainName` | Extensions.cs:66 | a path without separators is keyed by its lower-cased self |
| `Extension.ExampleKeys` | Extensions.cs:66 | `Bracket.SLDPRT` and `BRACKET.sldprt` both have key `bracket.sldprt`; `Shaft.sldprt` has key `shaft.sldprt` |
| `Extension.CountedKeysOfThree` | Extensions.cs:58-73 | the keys of three components where the first may be suppressed and is then skipped |
| `Extension.CaseVariantsCountTogether` | Extensions.cs:58-75 | two case variants of one path and another file give {first: 2, other: 1}, or {first: 1, other: 1} when the first variant is suppressed |
| `Extension.DocumentTypeOf` | Extensions.cs:128-146 | a name classified as a document is at least six characters long, the length of its ending; `OpenDocumentClassifies` states the classification |
| `Extension.OpenDocument` | Extensions.cs:118-146 | the step is `ManagerIsNull` exactly for a null manager, `NotADocument` exactly for a non-document name with a manager present, and otherwise `GetDocument` with the type the name selects |
| `Extension.OpenDocumentAsWritten` | Extensions.cs:114-151 | as written, `ArgumentNull` exactly for a null manager; every returned `openError` is none; a non-document name returns null |
| `Extension.OpenDocumentCorrected` | Extensions.cs:114-151 | corrected, `ArgumentNull` exactly for a null manager; a non-document name returns null with no error, and an error is only reported for a document name |
| `Extension.NullManagerRefused` | Extensions.cs:118-119 | a null manager throws before the file name is looked at |
| `Extension.OpenDocumentClassifies` | Extensions.cs:128-146 | each of the endings `sldprt`, `sldasm`, `slddrw` of the lower-cased name selects its type and only that one; any other name returns null without calling `GetDocument` |
| `Extension.OpenDocumentIgnoresCase` | Extensions.cs:128-138 | the ending is tested without regard to letter case |
| `Extension.EndingWithoutDotIsEnough` | Extensions.cs:128-146 | for every stem, `stem + "sldprt"` is taken for a part (so `xsldprt` is one) and `stem + "SLDDRW"` for a drawing (so `NOTES.SLDDRW` is one), while `stem + "sldprt.bak"` is not a document |
| `Extension.OpenErrorLostAsWritten` | Extensions.cs:114-151 | as written, a SOLIDWORKS file name for which `GetDocument` reports an error still returns `openError` = none |
| `Extension.OpenDocumentReportsError` | Extensions.cs:114-151 | corrected, the caller receives the document and the error code `GetDocument` produced for the selected type; non-documents return null with no error; a null manager throws |
| `Counting.Tally` | Extensions.cs:68-73 | a key is in the dictionary if and only if it occurs among the keys seen, and every count is at least 1 |
| `Counting.TallyAppend` | Extensions.cs:68-73 | seeing one more key increments its count, or adds it with 1 when new; no other entry changes |
| `Counting.TallyTotal` | Extensions.cs:68-73 | the counts add up to the number of keys seen |
| `Counting.TallyOfTwoDistinct` | Extensions.cs:68-73 | two different keys seen once each give a count of 1 each |
| `Counting.TallyOfRepeat` | Extensions.cs:68-73 | a key seen twice and another once give counts 2 and 1 |
| `Text.IsWhiteSpace` | Extensions.cs:42 | `char.IsWhiteSpace`: digits, ASCII letters, path separators and `.` are never white space |
| `Text.IsNullOrWhiteSpace` | Extensions.cs:42 | null and the empty string are blank; a string is not blank if and only if it is non-null and holds a character that is not white space |
| `Text.EndsWith` | Extensions.cs:128-136 | `string.EndsWith`; it carries no contract of its own, and `EndsWithPositions` states what it tests |
| `Text.EndsWithPositions` | Extensions.cs:128-136 | `s` ends with `suffix` if and only if the last characters of `s` match `suffix` position by position |
| `Text.FileName` | Extensions.cs:66 | `Path.GetFileName`; it carries no contract of its own, and `FileNameIsLastSegment` states what it returns: the longest suffix of the path without a separator |
| `Text.LowerChar` | Extensions.cs:66 | per-character `ToLower` on ASCII: the result is never an upper-case letter, an upper-case letter becomes a lower-case one, and every other character is unchanged |
| `Text.IsSeparator` | Extensions.cs:66 | the characters `Path.GetFileName` splits on (`\`, `/`, `:`); none of them is a letter or `.` |
| `Text.Lower` | Extensions.cs:66 | lower-casing keeps the length |
| `Text.LowerIdempotent` | Extensions.cs:128 | lower-casing twice is lower-casing once |
| `Text.LowerKeepsSeparators` | Extensions.cs:66 | lower-casing neither creates nor removes a path separator |
| `Text.FileNameIsLastSegment` | Extensions.cs:66 | the file name is a suffix of the path without separators, and either the whole path or preceded by a separator: the part after the last separator |
| `Text.FileNameOfJoin` | Extensions.cs:66 | the file name of a directory ending in a separator joined to a plain name is that name |
| `Text.FileNameIgnoresCase` | Extensions.cs:66 | paths that differ only in letter case have file names that differ only in letter case |

## Left out

- `GetApplication` (Extensions.cs:86-91) creates the COM class factory. It has no logic.
- `CloseDocument` (Extensions.cs:160-174) passes the document back to the Document Manager. It does null checks and a type test before passing the document on: a null manager throws `ArgumentNullException`, and a null document or one that is not an `ISwDMDocument` is skipped.
- The `GetDocument` call (Extensions.cs:149) is a function parameter of `OpenDocumentAsWritten` and `OpenDocumentCorrected`. `openReadOnly` is passed to it unchanged.
- `GetConfigurationNames` (Extensions.cs:100-103) is not modelled; its result is the `configurationNames` input. Lines 43 and 45 call the LINQ methods `FirstOrDefault` and `Contains` on `configurationNames`, so line 34 binds to this `string[]` wrapper. When the manager returns null, or something that is not an `object[]`, `Cast` throws `ArgumentNullException`. The null check at line 38 is therefore never true. The model keeps `NamesUnavailable` for a null array, as line 38 intends.
- Configuration names are taken to be non-null strings. `Contains` on a defaulted null name (empty array) is then false. A null element in the array is not modelled.
- COM casts are not modelled. A component that is not an `ISwDMComponent11`, or that has a null `PathName`, throws `NullReferenceException` at lines 63 and 66. Components are taken as already typed, with a path.
- A null `doc` and a null `sDocFileName` throw `NullReferenceException`. These are not designed error paths and are excluded.
- Exception messages, the inner exceptions and the `doc.FullName` text are left out. Only the error variant is kept.
- `ToLower` and `EndsWith` use the current culture in .NET. The model lower-cases ASCII letters only and compares endings character by character.
- `Path.GetFileName` is modelled as the text after the last `\`, `/` or `:`. Some .NET versions throw `ArgumentException` for invalid path characters; that check is not modelled.
- Counts are unbounded integers. In C# they are 32-bit, but a count never exceeds the length of the component array, so they cannot wrap.
- Empty name arrays: the code reports `NamesUnavailable` only for a null array. An empty array defaults to a null name and fails as `ConfigurationNotFound` (Extensions.cs:38-46). The model follows the code, not the broader reading that any document without configuration names fails as unavailable.

## Findings

| source | as written | input that shows it | evidently intended | confidence | as-written member | corrected member |
|---|---|---|---|---|---|---|
| Extensions.cs:116-151 | `openError` is set to `swDmDocumentOpenErrorNone` on entry and never assigned again; the error `GetDocument` reports goes to the local `nRetVal` and is dropped | manager present, file `a.sldprt`, `GetDocument` returns null and reports any error other than none: the caller gets null with `openError` = none | `openError` carries the code `GetDocument` reported | medium, not executed | `Extension.OpenErrorLostAsWritten` | `Extension.OpenDocumentReportsError` |
