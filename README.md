# validate-course-config in Dafny

This project models the core of the `validate-course-config` GitHub action and proves properties of that model. The action checks the YAML "book" configuration files of a course repository.

- **Validator.** `validateRepo` finds every `*.book.yml` file the glob returns and parses it. It checks each parsed document against the book schema and reports `shortName` values repeated inside one file. Finally it reports `sortOrder` and `name` values shared by several books.
- **Release name.** `determine_release` reads the release name off a branch ref.
- **Errors.** The error classes build a description, a location and a suggestion, and render as a two- or three-line block.
- **Failure message.** `format_error_message` joins those blocks under a header sentence.
- **Formatting helpers.** `bullet_list` and `cat` build text.

The modules follow the source files:

| module | file | models |
|---|---|---|
| `RepoValidation` | `validate_repo.dfy` | `src/validate-repo.ts`. The reports are specification functions (`Validation`, `PerFileReports`, `AcrossFileReports`, …). The validator itself is methods that push to an `ErrorList` object, proved against those functions. |
| `RepoProperties` | `repo_properties.dfy` | What the returned list says about the repository: which files are read, which reports appear and why, and in what order. |
| `Tracking` | `tracker.dfy` | The `Record<string, string[]>` trackers: the `Tracker` class, updated in place, and its abstract value `Multimap`. |
| `Traversal` | `traverse.dfy` | `traverseConfig`, as a recursive method over the `Json` tree, proved against `Occurrences`. |
| `PropertyOrder` | `property_order.dfy` | The order in which `for…in` lists an object's keys: array indices ascending, then the other keys in insertion order. |
| `Errors` | `errors.dfy` | `src/errors.ts`. |
| `Release` | `release.dfy` | `src/determine-release.ts`, without the date. |
| `Schema` | `schema.dfy` | `src/schema.ts`. The schema is kept twice: as data read by a small JSON Schema evaluator, and as the predicates `ValidBook`, `ValidChapter`, `ValidPage` and `ValidVariables`. Lemmas prove that the two agree. |
| `Formatting` | `formatting.dfy` | `bullet_list` and `cat` of `src/formatting.ts`. |
| `ErrorMessage` | `error_message.dfy` | `format_error_message` of `src/main.ts`. |
| `JsonValues`, `Strings`, `Wrappers` | | Support modules: the parsed-YAML value, the JavaScript string operations used, and `Option`/`Result`. |

**Inputs taken as parameters.** The glob, the file system, the YAML parser and Ajv are parameters of the validator:

- `globbed` is the glob's result and `searchPaths` its search paths;
- `load` maps a path to a parsed document or a parse error;
- `ajv` maps a document to the validator's error objects.

`isObject` is the `Obj?` test on the `Json` datatype.

**Details taken from the code:**

- The across-file keys are checked in the order `sortOrder`, then `name`, as the call at src/validate-repo.ts:49 passes them.
- A parse error whose position is unknown is located at `file:`, not at an empty location (src/errors.ts:85).
- `isTypeParams` reads `instancePath` and `message` from the error's `params`, not from the error object itself (src/errors.ts:74-79).

## Model

| member | source | states |
|---|---|---|
| RepoValidation.ValidateRepo | src/validate-repo.ts:28-52 | The returned list is `Validation` of the glob result, search paths, parser and validator: the missing-configuration error alone when no book file is found, and otherwise the book reports. |
| RepoValidation.ValidateBooks | src/validate-repo.ts:32-51 | With book files present, the list is every file's reports in file order, followed by the across-file reports over the documents recorded. |
| RepoValidation.CheckFiles | src/validate-repo.ts:41-48 | The loop over the files appends exactly the per-file reports of all files, in order. It leaves `configs` equal to the record of the files that parsed to a truthy document. |
| RepoValidation.CheckFile | src/validate-repo.ts:42-47 | One turn of the loop appends exactly that file's reports. It records the file only when the file parsed to a truthy document, and records it whatever the schema errors were. |
| RepoValidation.ParseYamlFile | src/validate-repo.ts:88-100 | On success it returns the document and appends nothing. On failure it returns nothing and appends exactly one parse error for that file. |
| RepoValidation.ValidateConfigSchema | src/validate-repo.ts:108-118 | Appends one validation error per error object of the validator, in the validator's order. |
| RepoValidation.CheckUniqueValuesAcrossConfigs | src/validate-repo.ts:126-147 | Appends the across-file reports: key by key, one report per value tracked with more than one file. |
| RepoValidation.NewTrackers | src/validate-repo.ts:131-133 | Creates one new, empty tracker per key, all distinct objects. |
| RepoValidation.TrackFile | src/validate-repo.ts:138-140 | Each key's tracker has tracked `config[key]?.toString()` at the file, with `undefined` standing as `''`. |
| RepoValidation.TrackFiles | src/validate-repo.ts:136-141 | After the loop, each key's tracker holds the (value, file) pairs of every recorded file in enumeration order. |
| RepoValidation.ReportKeys | src/validate-repo.ts:144-146 | Appends each key's duplicate reports, key after key in the order of `keys`. |
| RepoValidation.CheckUniqueAcrossConfigs | src/validate-repo.ts:177-188 | Appends one report per tracked value with more than one file, in enumeration order, carrying the value's whole file list. |
| RepoValidation.ReportAcrossGroups | src/validate-repo.ts:182-187 | The loop over the values appends exactly the across-file reports of the duplicate groups among those values. |
| RepoValidation.CheckUniqueValuesWithinConfig | src/validate-repo.ts:197-206 | Appends the within-file reports of the tracker that the walk of the document fills. |
| RepoValidation.CheckUniqueWithinConfig | src/validate-repo.ts:275-287 | Appends one report per tracked value with more than one path, in enumeration order, carrying the whole path list. |
| RepoValidation.ReportWithinGroups | src/validate-repo.ts:281-286 | The loop over the values appends exactly the within-file reports of the duplicate groups among those values. |
| RepoValidation.ErrorList.constructor | src/validate-repo.ts:32 | The `errors` array starts empty. |
| RepoValidation.ErrorList.Push | src/validate-repo.ts:116 | `errors.push` appends exactly one report and changes nothing else. |
| RepoValidation.Basename | src/validate-repo.ts:75 | `path.basename` for POSIX paths: the result is no longer than the path and holds no `/`. A path without `/` is its own basename. |
| RepoValidation.IsBookFile | src/validate-repo.ts:75 | A path is a book file when its basename ends in `.book.yml`. It has no contract of its own; `RepoProperties.BookFilesExactly` states what the filter keeps. |
| RepoValidation.BookFiles | src/validate-repo.ts:74-76 | The filter keeps no more paths than the glob found, and each kept path is a globbed book file. `RepoProperties.BookFilesExactly` gives the converse. |
| RepoValidation.StripTrailingSlashesShape | src/validate-repo.ts:74-76 | Stripping trailing separators removes only `/` characters from the end, and leaves none there. |
| RepoValidation.AfterLastSlashShape | src/validate-repo.ts:74-76 | The basename is a suffix holding no `/`. It is the whole text, or a `/` precedes it. |
| RepoValidation.Register | src/validate-repo.ts:47 | `configs[file] = config` keeps the record consistent: each path is listed once, and the list holds exactly the recorded paths. |
| RepoValidation.RegistryOf | src/validate-repo.ts:41-48 | The record built by the loop is consistent. |
| RepoValidation.FileOrder | src/validate-repo.ts:136 | `for (const filepath in configs)` enumerates a permutation of the recorded paths, each of them recorded. |
| RepoValidation.KeyPairs | src/validate-repo.ts:136-141 | The i-th pair tracked for a key is the i-th file's stringified value (`''` for an absent or null value) with that file. |
| RepoValidation.KeyTracker | src/validate-repo.ts:131-141 | The tracker of each key is a consistent multimap. |
| RepoValidation.KeyTrackers | src/validate-repo.ts:131-141 | One consistent tracker per key, the j-th being the tracker of the j-th key. |
| RepoValidation.WithinTracker | src/validate-repo.ts:203-204 | The within-file tracker filled by the walk is a consistent multimap. |
| RepoValidation.WithinReports | src/validate-repo.ts:281-286 | One within-file report per duplicate group. |
| RepoValidation.AcrossReports | src/validate-repo.ts:182-187 | One across-file report per duplicate group. |
| RepoValidation.EnumeratedAreTracked | src/validate-repo.ts:182-183 | Every value `for…in` enumerates on a tracker has a location list. |
| RepoProperties.BookFilesExactly | src/validate-repo.ts:74-76 | A path is processed if and only if the glob found it and its basename ends in `.book.yml`. |
| RepoProperties.BookFilesConcat | src/validate-repo.ts:74-76 | The filter keeps the glob's order: filtering `a + b` is filtering `a`, then `b`. |
| RepoProperties.BookFileIsNoIndex | src/validate-repo.ts:74-76 | A book-file path is non-empty and is never an array-index key, so `for…in` over `configs` keeps insertion order. |
| RepoProperties.BookFilesNamed | src/validate-repo.ts:74-76 | Every path the filter keeps is a non-empty book-file path. |
| RepoProperties.RegistryExactly | src/validate-repo.ts:41-47 | A file reaches the across-file check if and only if it is a book file that parsed to a truthy document. It is then recorded with that document. A file that fails to parse is never recorded. |
| RepoProperties.FileOutcome | src/validate-repo.ts:41-47 | A file that fails to parse adds exactly one parse error and nothing else. A falsy document adds nothing. A truthy document adds one validation error per validator error, then its `shortName` repeats, whatever the validator found. |
| RepoProperties.FileOrderOfBooks | src/validate-repo.ts:136 | The across-file trackers visit the book files in the order they were first recorded. |
| RepoProperties.PerFileLocal | src/validate-repo.ts:41-48 | The per-file reports and the record depend on the parser only through the listed files. |
| RepoProperties.ValidationLocal | src/validate-repo.ts:28-52 | Two file systems that agree on the book files give the same list. |
| RepoProperties.WithinReportsAt | src/validate-repo.ts:281-286 | The i-th within-file report is the i-th duplicate group, with its value and paths. |
| RepoProperties.WithinReportsExactly | src/validate-repo.ts:281-286 | A report is among the within-file reports if and only if it is a within-file repeat of that file and key whose (value, paths) is a duplicate group. |
| RepoProperties.AcrossReportsAt | src/validate-repo.ts:182-187 | The i-th across-file report is the i-th duplicate group, with its value and files. |
| RepoProperties.AcrossReportsExactly | src/validate-repo.ts:182-187 | A report is among the across-file reports of a key if and only if it is an across-file repeat of that key whose (value, files) is a duplicate group. |
| RepoProperties.WithinFileDuplicate | src/validate-repo.ts:197-287 | A `shortName` value is reported as repeated in a document if and only if it is non-empty and the walk finds it at more than one path. The report carries all those paths in visiting order. |
| RepoProperties.WithinFileOncePerValue | src/validate-repo.ts:275-287 | A document's within-file reports are all repeats, and no value is reported twice. |
| RepoProperties.SchemaReportsNameFile | src/validate-repo.ts:108-118 | Every validation error of a file is located in that file. |
| RepoProperties.WithinReportsNameFile | src/validate-repo.ts:275-287 | Every within-file repeat names the file it was found in. |
| RepoProperties.FileReportsNameFile | src/validate-repo.ts:41-47 | Every report a file adds names that file. |
| RepoProperties.PerFileReportsNameFiles | src/validate-repo.ts:41-48 | Every per-file report names one of the files. |
| RepoProperties.PerFileReportsNoAcross | src/validate-repo.ts:41-48 | No across-file repeat comes from the per-file reports. |
| RepoProperties.PerFileReportsUnlocated | src/validate-repo.ts:41-48 | When no path is empty, no error without a location comes from the per-file reports. |
| RepoProperties.KeyedReportsFrom | src/validate-repo.ts:144-146 | Every across-file report comes from the duplicate groups of one of the keys. |
| RepoProperties.KeyedReportsInclude | src/validate-repo.ts:144-146 | Every report of every key's duplicate groups is in the across-file reports. |
| RepoProperties.KeyedReportsExactly | src/validate-repo.ts:144-146 | A report is among the across-file reports if and only if it is among the reports of one of the keys. |
| RepoProperties.KeyPairsLocations | src/validate-repo.ts:136-141 | The files tracked under a value are exactly the files, in order, whose key stringifies to that value, with `undefined` counting as `''`. |
| RepoProperties.AcrossFileDuplicate | src/validate-repo.ts:126-188 | A value is reported as shared if and only if its key is checked, the value is non-empty, and more than one recorded file has it. The report lists exactly those files in enumeration order. |
| RepoProperties.AcrossFileKinds | src/validate-repo.ts:144-146 | The across-file check emits only across-file repeats, each for one of the checked keys. |
| RepoProperties.UnlocatedErrors | src/validate-repo.ts:37-51 | An error without a location is in the list if and only if no book file was found and the error is the missing-configuration error. |
| RepoProperties.MissingConfigExactly | src/validate-repo.ts:37-39 | The missing-configuration error is reported if and only if no book file was found. When it is reported it is the only report: no other check runs. |
| RepoProperties.AcrossFileOrder | src/validate-repo.ts:144-146 | The across-file reports are the `sortOrder` repeats followed by the `name` repeats. |
| RepoProperties.BooksSharingValue | src/validate-repo.ts:41-51 | In the whole list, books are reported as sharing a value if and only if the key is `sortOrder` or `name`, the value is non-empty, and more than one recorded book has it. The report lists those books in the order they were read. |
| Tracking.Tracked | src/validate-repo.ts:157-169 | Tracking `''` changes nothing. Otherwise the value's list becomes its old list (or the empty list) plus the new location, and every other entry is unchanged. Tracking keeps the multimap consistent. |
| Tracking.Tracker.constructor | src/validate-repo.ts:203 | A new tracker is empty. |
| Tracking.Tracker.Track | src/validate-repo.ts:254-266 | The in-place update leaves the tracker holding `Tracked` of its old value. This is the corrected tracker; the code as written is in "## Findings". |
| Tracking.Duplicates | src/validate-repo.ts:182-183 | The duplicate groups of a tracker, in its `for…in` order. It has no contract of its own; `Tracking.DuplicatesExactly` states that a group is reported exactly when its value has more than one location, with the whole list, and that no value is reported twice. |
| Tracking.TrackedAllConcat | src/validate-repo.ts:232-237 | Tracking `a + b` is tracking `a` and then `b`: the shared tracker accumulates across the recursive calls. |
| Tracking.TrackedAllGroups | src/validate-repo.ts:157-169 | After tracking a list of pairs from empty: the tracker is consistent; `''` is never tracked; a non-empty value is tracked if and only if some pair carries it; and its list is every location paired with it, in order. |
| Tracking.TrackedAllLocationsFrom | src/validate-repo.ts:254-266 | Every location a tracker holds for a value came from a pair with that value and location. |
| Tracking.DuplicatesAmongExactly | src/validate-repo.ts:281-283 | A (value, list) group is found among given values if and only if the value is among them, is tracked with more than one location, and the list is its whole list. |
| Tracking.DuplicatesAmongDistinct | src/validate-repo.ts:281-283 | Distinct values give groups with distinct values. |
| Tracking.DuplicatesExactly | src/validate-repo.ts:177-188 | A group is reported if and only if its value is tracked with more than one location. It carries the whole list, and no value is reported twice. |
| Tracking.DuplicatesDistinct | src/validate-repo.ts:281-287 | The duplicate groups of a consistent tracker have pairwise different values. |
| Tracking.TrackedAsWritten | src/validate-repo.ts:164-168 | As written, tracking fails with a TypeError exactly for a non-empty, not yet tracked value that names a member of `Object.prototype`. Otherwise it agrees with `Tracked`. |
| Tracking.PrototypeNameThrows | src/validate-repo.ts:261-265 | A `shortName` of `constructor` makes the code as written throw, while `Tracked` records it. |
| Traversal.Traverse | src/validate-repo.ts:216-246 | The walk leaves the tracker holding its old value with exactly the occurrences below the node tracked, in visiting order. |
| Traversal.TraverseMembers | src/validate-repo.ts:232-237 | Walking an object's members tracks the occurrences below every member that is an object or array, in member order. |
| Traversal.TraverseElements | src/validate-repo.ts:239-244 | Walking an array tracks the occurrences below every element that is an object or array, in index order. |
| Traversal.OccurrencesExactly | src/validate-repo.ts:216-246 | The walk records `(v, p)` if and only if some object reachable through members and elements has `key` equal to the string `v`, and `p` is that object's path (`.name` for members, `[i]` for elements) followed by the key. Non-string values are ignored. |
| Traversal.OccurrenceHasSteps | src/validate-repo.ts:216-246 | Every recorded occurrence is reached by some sequence of steps. |
| Traversal.MemberOccurrenceHasSteps | src/validate-repo.ts:232-237 | An occurrence found below an object's members is reached through one of them. |
| Traversal.ElementOccurrenceHasSteps | src/validate-repo.ts:239-244 | An occurrence found below an array's elements is reached through one of them. |
| Traversal.IntoMemberFound | src/validate-repo.ts:234-235 | A find below member `i`, at the member's path, is a find from the parent one step longer. |
| Traversal.IntoElementFound | src/validate-repo.ts:241-242 | A find below element `i`, at path `[i]`, is a find from the parent one step longer. |
| Traversal.MemberOccurrencesInclude | src/validate-repo.ts:232-237 | What the walk finds below member `i` is part of what it finds below the first `n > i` members. |
| Traversal.ElementOccurrencesInclude | src/validate-repo.ts:239-244 | What the walk finds below element `i` is part of what it finds below the first `n > i` elements. |
| Traversal.StepsGiveOccurrence | src/validate-repo.ts:216-246 | Every object reachable by steps whose key holds a string is recorded at its path. |
| PropertyOrder.IndexKeys | src/validate-repo.ts:182 | The array-index keys, kept in insertion order, are all array indices. |
| PropertyOrder.OtherKeys | src/validate-repo.ts:182 | The remaining keys contain no array index. |
| PropertyOrder.SplitIsPermutation | src/validate-repo.ts:182 | The two groups together are a permutation of the keys. |
| PropertyOrder.InsertByIndex | src/validate-repo.ts:182 | Inserting an index into a sorted list keeps it sorted and adds exactly that key. |
| PropertyOrder.SortByIndex | src/validate-repo.ts:182 | Sorting array indices numerically gives a sorted permutation. |
| PropertyOrder.ForInOrder | src/validate-repo.ts:182 | The enumeration order is a permutation of the keys. |
| PropertyOrder.ForInOrderShape | src/validate-repo.ts:182 | The enumeration lists the array indices first, sorted by value, and then the other keys in insertion order. |
| PropertyOrder.NoIndexKeysKeepOrder | src/validate-repo.ts:136 | When no key is an array index, the enumeration order is the insertion order. |
| PropertyOrder.NoIndexKeysFilters | src/validate-repo.ts:136 | When no key is an array index, the split puts every key in the second group. |
| PropertyOrder.NonDigitIsNoIndex | src/validate-repo.ts:136 | A key holding a non-digit is not an array index. |
| PropertyOrder.ForInOrderDistinct | src/validate-repo.ts:281 | Keys added without repetition are enumerated without repetition. |
| PropertyOrder.DistinctIffMultiplicityOne | src/validate-repo.ts:281 | A list has no repeated element if and only if each element has multiplicity one. |
| JsonValues.Truthy | src/validate-repo.ts:43 | JavaScript truthiness of a parsed document for `if (!config) continue`: `null`, `false`, `0` and `''` are falsy, and objects and arrays are truthy even when empty. It has no contract of its own; `RepoProperties.RegistryExactly` and `RepoProperties.FileOutcome` state its effect. |
| JsonValues.ToJsString | src/validate-repo.ts:139 | `String(value)` for each kind of value, with an array joining its elements by commas and `null` elements standing as `''`. It has no contract of its own; `JsonValues.PropertyString` states what the across-file check sees. |
| JsonValues.Get | src/validate-repo.ts:224-226 | For a key that names no `Object.prototype` member, such as `shortName`, `key in config` fails if and only if no own member has that name. A found value is the value of a member with that name. |
| JsonValues.PropertyString | src/validate-repo.ts:139 | `config[key]?.toString()` is defined if and only if the member is present and not null. An empty string or an empty array stringifies to `''`. |
| Errors.IsRequiredParams | src/errors.ts:70-72 | `isRequiredParams`: the params carry a `missingProperty`. It has no contract of its own; `Errors.ValidationErrorRequiredNamesProperty` states what the branch it selects shows. |
| Errors.IsTypeParams | src/errors.ts:74-79 | `isTypeParams`: the params carry both `instancePath` and `message`. It has no contract of its own; `Errors.ValidationErrorTypeDescription` and `Errors.ValidationErrorIgnoresParamsMessage` state what the branch it selects shows. |
| Errors.ExtractLocation | src/errors.ts:89-94 | The location text is empty exactly when the parser gave no position. `Errors.ParseErrorLocationRoundTrip` states that the position reads back from it. |
| Errors.ToStringText | src/errors.ts:19-27 | `toString` is the description line and the location line, plus the suggestion line exactly when the suggestion is non-empty, separated by `\n`. |
| Errors.ToStringLineCount | src/errors.ts:19-27 | When no field holds a line break, the rendering has two lines, or three with a suggestion. |
| Errors.DottedPathShape | src/errors.ts:47 | The dotted path drops the first character of the instance path, turns each `/` into `.`, keeps every other character, and holds no `/`. |
| Errors.ValidationErrorRequiredNamesProperty | src/errors.ts:44-45 | A missing-property error quotes the property's name. Its description depends on that name alone, not on the file, the validator's message or the other params. The location is the file and the suggestion is fixed. |
| Errors.ValidationErrorTypeDescription | src/errors.ts:46-47 | A type error (with no missing property) shows the dotted path of the instance path, closes the quote, and goes on with the error's message, or `undefined` when it has none. The description ends with that message. |
| Errors.ValidationErrorIgnoresParamsMessage | src/errors.ts:46-47 | In the type reading, the text of the params' own `message` never appears; only its presence selects the reading. |
| Errors.UnknownValidationError | src/errors.ts:48-49 | An error object that fits neither reading and has no message is described as `Unknown validation error`. |
| Errors.DottedPathExample | src/errors.ts:47 | The instance path `/chapters/0/name` becomes `chapters.0.name`. |
| Errors.TypeErrorExample | src/errors.ts:46-47 | A type error at `/chapters/0/name` with message `must be string` is described as `The type of property 'chapters.0.name' must be string`. |
| Errors.ParseErrorLocationRoundTrip | src/errors.ts:81-95 | A parse error carries the parser's message and the fixed suggestion. Its location is the file, a colon, and a `line:col` text from which the parser's position reads back exactly. When the position is unknown it is `file:`. |
| Errors.ReadLinePosInverse | src/errors.ts:89-94 | Reading back a rendered `line:col` gives the same line and column. |
| Errors.MissingConfigNamesPaths | src/errors.ts:97-105 | A missing-configuration error has an empty location. Its description is the fixed sentence followed by the search paths joined with `, `, so it names every search path. |
| Errors.RequiredUniqueNamesFiles | src/errors.ts:107-114 | A uniqueness error has an empty location. Its description starts by naming the key and names every file sharing the value. |
| Errors.RequiredUniqueNamesValue | src/errors.ts:110-112 | The uniqueness description names the shared value, and the suggestion names the key. |
| Errors.MissingNameDescription | src/errors.ts:44-50 | A missing `name` gives `Missing required property 'name'`. An error without params gives the validator's message, such as `must be integer`. |
| Release.DetermineRelease | src/determine-release.ts:21-44 | The resolver fails exactly when the ref is not a branch under the prefix, and then only with the missing-prefix error. `Release.OnPrefixNamesSuffix` states the name it returns otherwise. |
| Release.MatchesVersionIff | src/determine-release.ts:34 | The matcher accepts exactly the strings of two or three non-empty digit runs separated by dots. |
| Release.FirstLine | src/determine-release.ts:34 | What `(.*)` matches is the longest prefix without a line terminator. |
| Release.FirstLineWhole | src/determine-release.ts:34 | On text without a line terminator, `(.*)` matches all of it. |
| Release.MatchReleasePattern | src/determine-release.ts:34-38 | The pattern always matches. Group 1 is defined if and only if the text is `v` and a version, and it is then the text without the `v`. Otherwise group 2 is the first line. |
| Release.RejectsExactlyOffPrefix | src/determine-release.ts:26-38 | The resolver fails if and only if the ref does not start with `refs/heads/` and the prefix, with the message naming the ref and the prefix. The "could not determine" error never happens. |
| Release.OnPrefixNamesSuffix | src/determine-release.ts:33-41 | Under the prefix, the release is named after what follows the prefix. |
| Release.VersionBranchName | src/determine-release.ts:33-41 | When the suffix is `v` and a version, the name is the version, and the ref is the prefix, `v` and the name. |
| Release.OtherBranchName | src/determine-release.ts:33-41 | Otherwise the name is the suffix up to its first line terminator. |
| Release.NonVersionNameVerbatim | src/determine-release.ts:33-41 | Without a line terminator in the ref, a non-version suffix is the name verbatim. |
| Release.NameIsSuffixOfRef | src/determine-release.ts:33-41 | Without a line terminator in the ref, the release name is a suffix of the ref. |
| Release.BranchNamed | src/determine-release.ts:26-41 | `refs/heads/` + prefix + suffix is always accepted and named after the suffix. |
| Release.TagRefRejected | __tests__/determine-release.test.ts:5-9 | A tag ref is rejected. |
| Release.PullRefRejected | __tests__/determine-release.test.ts:5-9 | A pull-request ref is rejected. |
| Release.OtherBranchRejected | __tests__/determine-release.test.ts:5-9 | A branch outside the release prefix is rejected. |
| Release.VersionBranchExample | __tests__/determine-release.test.ts:20-24 | `refs/heads/release/v1.0` is release `1.0`. |
| Release.PlainBranchNamed | src/determine-release.ts:33-41 | A branch name that does not start with `v` and has no line terminator is the release name as it stands. |
| Release.NamedBranchExample | __tests__/determine-release.test.ts:26-33 | `refs/heads/release/anything` is release `anything`. |
| Release.CustomPrefixExample | __tests__/determine-release.test.ts:35-43 | Under the prefix `test/`, `refs/heads/test/anything` is release `anything`. |
| Release.VersionShapes | src/determine-release.ts:34 | `v1.2.3` names version `1.2.3`. `v1.2.3.4` is kept verbatim. |
| Schema.ObjectNode | src/schema.ts:6-38 | An object node without `items` or `additionalProperties` holds if and only if the value is an object whose required members are present and whose named members satisfy their schemas. |
| Schema.ObjectWithAgrees | src/schema.ts:44-45 | `{type: 'object', required}` holds if and only if the value is an object with those members. |
| Schema.MaybeEitherIsNotBoth | src/schema.ts:39-55 | `anyOf(oneOf(has a, has b), not(has a and b))` holds if and only if the value is not an object with both members. |
| Schema.AllOfTwo | src/schema.ts:5-56 | `allOf` of two schemas is their conjunction. |
| Schema.AnyOfTwo | src/schema.ts:41-54 | `anyOf` of two schemas is their disjunction. |
| Schema.OneOfTwo | src/schema.ts:43-46 | `oneOf` of two schemas is their exclusive or. |
| Schema.VariablesAgree | src/schema.ts:58-63 | `variables` holds if and only if the value is an object whose every value is a string or a number. |
| Schema.StringAgrees | src/schema.ts:9-12 | A string-typed property holds if and only if the member, when present, is a string. |
| Schema.VariablesPropertyAgrees | src/schema.ts:21-25 | The `variables` property holds if and only if the member, when present, is valid variables. |
| Schema.PagePropertiesAgree | src/schema.ts:119-142 | The page properties hold if and only if `name`, `shortName` and `file` are strings, `required` is a boolean and `variables` is valid, each when present. |
| Schema.PageAgrees | src/schema.ts:117-143 | A page satisfies the schema if and only if `ValidPage` holds. |
| Schema.PagesAgree | src/schema.ts:115-144 | `pages` holds if and only if the value is an array of valid pages. |
| Schema.PagesPropertyAgrees | src/schema.ts:84-93 | A `pages` or `lessons` property holds if and only if the member, when present, is a valid page list. |
| Schema.ChapterPropertiesAgree | src/schema.ts:72-95 | The chapter properties hold if and only if `name` is a string and `variables`, `pages` and `lessons` are valid, each when present. |
| Schema.ChapterAgrees | src/schema.ts:70-114 | A chapter satisfies the schema if and only if `ValidChapter` holds: no member is required, and `lessons` and `pages` may not both be present. |
| Schema.ChaptersAgree | src/schema.ts:64-69 | `chapters` holds if and only if the value is an array of valid chapters. |
| Schema.ChaptersPropertyAgrees | src/schema.ts:26-35 | A `chapters` or `modules` property holds if and only if the member, when present, is a valid chapter list. |
| Schema.BookPropertiesAgree | src/schema.ts:8-36 | The book properties hold if and only if: `name` and `description` are strings, `sortOrder` is an integer, and `variables`, `chapters` and `modules` are valid, each when present. |
| Schema.BookAgrees | src/schema.ts:1-56 | A document satisfies `bookSchema` if and only if `ValidBook` holds. |
| Schema.ValidBookHasNameAndSortOrder | src/schema.ts:7-37 | A valid book is an object with both `name` and `sortOrder`, the name a string and the sort order an integer. |
| Schema.ExtraMemberInBook | src/schema.ts:7-38 | Adding a member the book schema does not name keeps a valid book valid. |
| Schema.BookMembersDecide | src/schema.ts:8-36 | Whether a book is valid depends only on its six named members. |
| Schema.ExtraMemberInChapter | src/schema.ts:72-95 | Adding an unnamed member keeps a valid chapter valid. |
| Schema.ExtraMemberInPage | src/schema.ts:117-143 | Adding an unnamed member keeps a valid page valid. |
| Schema.EmptyChapterValid | src/schema.ts:70-114 | A chapter with no members satisfies the chapter definition. |
| Schema.PlainBookValid | src/schema.ts:39-55 | A book with a name and a sort order but neither `chapters` nor `modules` is valid. |
| Schema.ChaptersAndModulesRejected | src/schema.ts:39-55 | A book with both `chapters` and `modules` is not valid. |
| Schema.NamelessBookRejected | src/schema.ts:37 | A book without `name` is not valid. |
| Schema.TextSortOrderRejected | src/schema.ts:17-20 | A book whose `sortOrder` is a string is not valid. |
| Formatting.BulletList | src/formatting.ts:8-17 | `bullet_list(message, bullets, indent_level, bullet_char)`. It has no contract of its own; `Formatting.BulletListLines`, `Formatting.BulletListEmpty` and `Formatting.BulletListLineCount` state its layout. |
| Formatting.BulletLine | src/formatting.ts:15 | A bullet line is two characters of indent per level longer than the bullet, a space and the text, and it ends with a space and the text. |
| Formatting.BulletLines | src/formatting.ts:15 | One bullet line per bullet, in order. |
| Formatting.BulletListEmpty | src/formatting.ts:16 | Without bullets, the result is the message and a line break. |
| Formatting.BulletListSnoc | src/formatting.ts:14-16 | Each further bullet adds one line at the end. |
| Formatting.BulletListLines | src/formatting.ts:8-17 | With bullets, the result is the message line and the bullet lines joined by `\n`. |
| Formatting.BulletListLineCount | src/formatting.ts:8-17 | When no text holds a line break, the list has exactly one line break per bullet. |
| Formatting.DashBullets | src/formatting.ts:11-15 | At the default level a bullet is `  - x`; one level deeper it is `    - x`. |
| Formatting.FlatListExample | __tests__/formatting.test.ts:4-8 | With the default level and bullet, `bullet_list('hello hello', ['a','b','c'])` is the literal `'hello hello\n  - a\n  - b\n  - c'`. |
| Formatting.BulletOfLines | src/formatting.ts:15 | A bullet whose text spans several lines indents only its first line. |
| Formatting.InnerList | src/formatting.ts:8-17 | A two-bullet list at level 2 is its message and two `    - ` lines. |
| Formatting.InnerListAsBullet | src/formatting.ts:8-17 | Such a list as a bullet at the default level gives one `  - ` line and two `    - ` lines. |
| Formatting.NestedList | src/formatting.ts:8-17 | Two level-2 lists as the bullets of a default list give the seven expected lines. |
| Formatting.NestedListExample | __tests__/formatting.test.ts:10-20 | The nesting test's list is the test's literal text, two `  - next-level` bullets each followed by two `    - ` lines. |
| Formatting.Cat | src/formatting.ts:24-26 | `cat(messages, spacer)`. It has no contract of its own; `Formatting.CatShape` and `Formatting.CatLength` state its layout and length. |
| Formatting.CatShape | src/formatting.ts:24-26 | `cat([])` is `''`, `cat([x])` is `x`, and each further message is appended after the spacer. |
| Formatting.CatLength | src/formatting.ts:24-26 | The length of `cat` is the messages' lengths plus one spacer between each two of them. |
| Formatting.CatExample | __tests__/formatting.test.ts:22-25 | With the default spacer, `cat(['a','b','c'])` is `a b c`. |
| ErrorMessage.FormatErrorMessage | src/main.ts:57-71 | `format_error_message`. It has no contract of its own; `ErrorMessage.FormatLayout` states it equals the header followed by each error's block after a blank line. |
| ErrorMessage.Block | src/main.ts:61-68 | The block of one error. It has no contract of its own; `ErrorMessage.BlockIsToString` and `ErrorMessage.BlockSuggestionLine` state its lines. |
| ErrorMessage.Blocks | src/main.ts:60-69 | One block per error, in list order. |
| ErrorMessage.BlockIsToString | src/main.ts:61-68 | Each block has the layout of `toString`, without path relativisation. |
| ErrorMessage.FormatNoErrors | src/main.ts:58-70 | An empty error list gives the header alone. |
| ErrorMessage.FormatSnoc | src/main.ts:58-70 | Each further error appends a blank line and its block. |
| ErrorMessage.FormatLayout | src/main.ts:58-70 | The message is the header, then, for each error in order, a blank line and its block. |
| ErrorMessage.FormatStartsWithHeader | src/main.ts:58-59 | The message begins with the fixed header sentence. |
| ErrorMessage.FormatNamesEveryError | src/main.ts:58-70 | Every error's block appears in the message. |
| ErrorMessage.BlockSuggestionLine | src/main.ts:61-67 | A block ends with its suggestion line exactly when the suggestion is not `''`, and with its location line otherwise. |
| Strings.JoinSnoc | src/formatting.ts:25 | Joining one more part appends the separator and the part; a single part is itself. |
| Strings.JoinContainsPart | src/errors.ts:100 | Every joined part occurs in the joined text. |
| Strings.ReplaceChar | src/errors.ts:47 | A global single-character replace, scanning from the left, keeps the length and maps each position independently: `y` where `s` held `x`, the same character elsewhere. |
| Strings.ReplaceCharConcat | src/errors.ts:47 | Replacing characters in a concatenation replaces them in each part separately. |
| Strings.ReplaceCharCounts | src/errors.ts:47 | After replacing `x` by a different `y`, no `x` is left, `y` occurs as often as `x` and `y` together did before, and every other character occurs as often as before. |
| Strings.Repeat | src/formatting.ts:14 | `s.repeat(n)` has length `n * |s|`. |
| Strings.NatToStringRoundTrip | src/validate-repo.ts:241 | An index is rendered as a canonical decimal numeral whose value is the index. |

## Left out

- RepoValidation.ValidateRepo: it always returns a report list, in two cases where the source throws instead. First, the engine uses the corrected tracker `Tracking.Tracked`, so a tracked value naming an `Object.prototype` member is recorded; the source throws a TypeError there (see "## Findings"). Second, `fs.readFileSync` is called at src/validate-repo.ts:93, before the `try` that begins at line 94, so a file that cannot be read aborts the source's whole run. The model's single `load` parameter can only give a document or a parse error, so a read failure is not modelled.
- Globbing (`globConfigs` apart from its `.book.yml` filter), `getSearchPaths`, `core.debug`, `fs.readFileSync`, `YAML.parse` and Ajv are calls into code outside the model. Their results are the parameters `globbed`, `searchPaths`, `load` and `ajv`. Ajv's options, such as stopping at the first error, are part of what `ajv` returns.
- `path.basename` is modelled for POSIX separators only. Windows paths are not modelled.
- The parsed document is `Json`. An object's members are listed in the object's own property order, which the parser establishes. Duplicate YAML keys are the parser's concern and reach the model as a parse error or as one member.
- Numbers are integers. Floating-point `sortOrder` values, their `toString`, and `NaN` are not modelled. So the schema's `integer` and `number` types accept the same values here.
- `relativizePaths` and `relativize_paths` depend on `process.cwd()` and build a regular expression from an unescaped path. They are left out, so `toString` and the failure message are modelled before relativisation.
- The release date uses the clock, the time zone and the locale, so it is left out. `Release` holds the name only.
- `run()` in `src/main.ts` is CI input and output glue, and is left out. The auto-update and prefix arguments it passes are not part of `validateRepo` as shown.
- `DuplicateAcrossFilesError` and `DuplicateWithinFileError` are not defined in the `src/errors.ts` shown. They are modelled by their constructor arguments: the `DuplicateAcrossFiles` and `DuplicateWithinFile` reports. How they render is not modelled.
- RepoValidation.CheckUniqueValuesAcrossConfigs: it requires the keys to be distinct. The only call passes the constant `['sortOrder', 'name']`. With a repeated key, the source would share one tracker between the two copies.
- No lemma states that the per-file reports of `files + [f]` are those of `files` followed by those of `f` for arbitrary lists. That order is how `PerFileReports` is defined, and `CheckFiles` is proved against it.
- `ParseError`, `MissingConfigError`, `RequiredUniqueError`, `ValidationError` and `ToString` are functions without contracts of their own. Their fields are stated by the lemmas listed above.
- Strings are sequences of Unicode scalar values, and JavaScript strings are sequences of UTF-16 code units. This matters for `slice(1)` at src/errors.ts:47 and for the `.` of the pattern at src/determine-release.ts:34. For an instance path starting with `/`, and for well-formed text, the two agree. A lone surrogate, which a YAML escape can produce, cannot be represented in the model.
- JsonValues.Get: it looks only at the object's own members. In JavaScript, `key in config` and `config[key]` also find members inherited from `Object.prototype`, so `'constructor' in {}` is true. The keys looked up are `shortName` (src/validate-repo.ts:45), `sortOrder` and `name` (src/validate-repo.ts:49), and none of them is such a member, so the walk and the trackers behave the same.
- Formatting.BulletList: the indent level is a natural number. `'  '.repeat(indent_level)` (src/formatting.ts:14) throws a RangeError for a negative or infinite level, and that error is not modelled. The only callers shown pass 1 and 2.

## Findings

| source | as written | input that shows it | evidently intended | confidence | as-written member | corrected member |
|---|---|---|---|---|---|---|
| src/validate-repo.ts:164-168 | `if (!tracker[value]) tracker[value] = []` tests a plain object `{}`. That object inherits the members of `Object.prototype`, so for `value` such as `constructor`, `toString` or `__proto__` no list is created, and `tracker[value].push(...)` throws a TypeError. The same code appears at src/validate-repo.ts:261-265. | A page whose `shortName` is `constructor`, or a book whose `name` is `toString`. | The value gets a fresh list holding the location, like any other value. | not executed | Tracking.TrackedAsWritten | Tracking.Tracked |
