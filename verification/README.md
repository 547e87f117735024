# Student marks portal — a Dafny model

The system is a small school result portal. An Express service keeps one
document per student and exam in a MongoDB collection. An admin console lets
staff add, edit and list these records. A public page lets a student look up
their results by register number. This project models the logic of that
system:

- **`Text`** (`text.dfy`): the JavaScript string operations the code relies on.
  These are `trim`, `toLowerCase`, `toUpperCase` and `includes`, plus the run
  of decimal digits that `\d+` and `parseInt` read.
- **`Records`** (`records.dfy`): the record of the schema (`name`,
  `fatherName`, `registerNumber`, `className`, `examType`, `subjects` and the
  two time stamps), and how `Number(...)` reads a mark.
- **`Seqs`** (`seqs.dfy`): `Array.prototype.filter`, and a stable sort by an
  integer key.
- **`Server`** (`server.dfy`): the handlers of `backend/server.js`.
  - Each handler is a pure function from the table and the request to an
    outcome: add-mark, update-mark, all-marks, check-mark and the admin login.
  - The class `MarkStore` holds the table and updates it in place. It has an
    identity counter and a clock. Its invariant is that ids and update times
    never repeat.
- **`Report`** (`report.dfy`): the report card of `User.jsx`. This is the
  grade of a mark, the total earned and the total obtainable.
- **`Admin`** (`admin.dfy`): the admin console of `Admin.jsx`.
  - The Roman-numeral display of class names.
  - The class filter.
  - The `forEach` loop that groups the shown records by class, and the order
    of the groups.
  - The seven-row subject form used to edit a record.
  - The pass/fail badge.

The database is a sequence of records. A record's `_id` is a natural number
handed out by the store. `createdAt` and `updatedAt` are readings of a
counter clock that advances on every write. A JSON field that is absent is
the empty string. This is the value the handlers' truthiness tests treat
the same way.

In these places the code behaves as follows, and the model follows the
code:

- A register number made only of blanks passes the add handler's
  required-field test. It is then trimmed to `''`. If a record with the blank
  register number and the same exam already exists (an update can store one),
  the request is refused as a duplicate. Otherwise the schema refuses `''` on
  save, and the request fails with a 500 rather than a 400
  (`BlankRegisterNumberFailsOnSave`).
- The update handler does not trim. It does not re-check the exam pair, and
  it does not run the schema's required-field validators. It fails with a 500
  exactly when the request has no subject list, which `subjects.filter`
  cannot read, or when a mark does not cast to `Number` (`UpdateOutcome`,
  `UpdateCanDuplicateExam`).
- A subject row sent without a `mark` passes the subject filter, because
  `undefined` is neither `''` nor `null`. The schema's required mark then
  makes an add fail with a 500, while an update, which runs no validators,
  stores the row without a mark (`MissingMarkRow`).
- The edit form shows only the first seven subjects of a record. Saving a
  record with more subjects without a change drops the ones after the
  seventh (`EditAndSaveTruncates`).
- `Object.keys(groups)` lists the keys that are array indices (`"10"`, but
  not `"10A"`) first, in increasing order. The other keys follow in insertion
  order. The sort of the group keys starts from that order (`ObjectKeys`).
- A Roman-numeral filter is matched as a substring of the class number. So
  `I` finds the classes 10, 11 and 12 as well as class 1
  (`NumeralFilterFindsPrefix`).

## Model

| member | source | states |
|---|---|---|
| Text.TrimStart | frontend/src/components/Admin.jsx:246-247 | the result is a suffix of the input, everything dropped is whitespace, and the result does not start with whitespace |
| Text.TrimEnd | backend/server.js:55-56 | the result is a prefix of the input, everything dropped is whitespace, and the result does not end with whitespace |
| Text.LeadingSpaces | frontend/src/components/Admin.jsx:246 | counts the whitespace before the first other character |
| Text.Trim | backend/server.js:55-56 | `trim` removes exactly the input's leading and trailing whitespace: the result is the input's characters from the end of the leading whitespace on, everything dropped at either end is whitespace, and the result has no whitespace at either end |
| Text.LeadingSpacesOf | frontend/src/components/Admin.jsx:246 | whitespace followed by a non-blank text is counted exactly |
| Text.TrimStartAfter | frontend/src/components/Admin.jsx:246 | removing the leading whitespace from whitespace plus a non-blank text gives that text |
| Text.TrimStartNoSpace | frontend/src/components/Admin.jsx:246 | a text that does not start with whitespace is left unchanged by the leading trim |
| Text.TrimEmpty | backend/server.js:51-55 | trimming gives `''` exactly when the text is all whitespace |
| Text.TrimFixed | backend/server.js:68-71 | a text without whitespace at either end is its own trim |
| Text.TrimIdempotent | backend/server.js:153 | trimming twice is trimming once |
| Text.ToLower | frontend/src/components/Admin.jsx:36 | `toLowerCase` keeps the length and lower-cases each character |
| Text.ToUpper | frontend/src/components/Admin.jsx:34 | `toUpperCase` keeps the length and upper-cases each character |
| Text.ToLowerDigits | frontend/src/components/Admin.jsx:40 | lower-casing leaves a string of digits unchanged |
| Text.Contains | frontend/src/components/Admin.jsx:36 | `includes` is true exactly when the pattern occurs at some position |
| Text.LeadingDigits | frontend/src/components/Admin.jsx:22 | the `\d+` run: a prefix, all digits, and followed by no digit |
| Text.LeadingDigitsOf | frontend/src/components/Admin.jsx:22-25 | digits followed by a non-digit split exactly at the end of the digits |
| Seqs.Filter | backend/server.js:65 | `filter` keeps only passing elements and never grows |
| Seqs.FilterCount | backend/server.js:65 | each passing element keeps all its copies; each failing one loses all of them |
| Seqs.FilterMembers | frontend/src/components/Admin.jsx:236 | an element is in the filtered list exactly when it is in the list and passes |
| Seqs.FilterSplit | frontend/src/components/Admin.jsx:245 | filtering by a test and by its negation together hold every element |
| Seqs.FilterAppend | backend/server.js:65 | filtering commutes with concatenation, so the order is kept |
| Seqs.FilterAll | backend/server.js:91 | filtering a list whose elements all pass returns it unchanged |
| Seqs.FilterNone | frontend/src/components/Admin.jsx:241 | filtering a list none of whose elements passes gives `[]` |
| Seqs.FilterIdempotent | backend/server.js:91 | filtering twice is filtering once |
| Seqs.Insert | frontend/src/components/Admin.jsx:245-249 | insertion adds exactly the one element |
| Seqs.InsertSorted | frontend/src/components/Admin.jsx:245-249 | inserting into a sorted list keeps it sorted |
| Seqs.SortBy | frontend/src/components/Admin.jsx:245-249 | the sort returns a permutation of its input, in non-decreasing key order |
| Seqs.InsertStable | frontend/src/components/Admin.jsx:245-249 | insertion puts the new element before the others of its key and keeps their order |
| Seqs.SortByStable | frontend/src/components/Admin.jsx:245-249 | the sort is stable: the elements of each key come out in their input order |
| Server.ValidSubjects | backend/server.js:65 | every stored subject row has a name and a mark that is neither `''` nor `null` |
| Server.ValidSubjectsKeepsRows | backend/server.js:65 | every filled-in row is kept, with all its copies, and every empty row is dropped |
| Server.ValidSubjectsOrderAndIdempotence | backend/server.js:91 | the subject filter keeps the order of the rows and is idempotent |
| Server.AddOutcome | backend/server.js:47-81 | add-mark: 400 exactly when a required field is falsy; a duplicate exactly when the trimmed (register number, exam) pair exists, with its message; a record is added exactly when neither holds, the trimmed name, register number, class and exam are non-empty and every kept mark casts to a number; then the record saved has the trimmed fields, the filtered subjects, the new id and time, and passes the schema |
| Server.AddKeepsExamsUnique | backend/server.js:58-62 | a successful add keeps every (register number, exam) pair unique |
| Server.AddTwiceIsDuplicate | backend/server.js:55-62 | after an add, another add for the same trimmed pair is refused as a duplicate |
| Server.BlankRegisterNumberFailsOnSave | backend/server.js:51-55 | a whitespace-only register number passes the required-field test but never produces a record |
| Server.IndexOfId | backend/server.js:93 | finds a position holding the id, or reports that no record has it |
| Server.UpdateOutcome | backend/server.js:85-110 | update-mark: fails exactly when there is no subject list or a kept mark is non-numeric text (a row without a mark is stored as sent); updates exactly when neither holds and a record has the id; 404 exactly when no record has the id; then the stored record is the request as sent, with the filtered subjects, the old creation time and the new update time |
| Server.Overwrite | backend/server.js:93-100 | after an update only the record with that id is replaced; all others are kept |
| Server.MissingMarkRow | backend/server.js:65-76 | a subject row without a mark passes the subject filter; an add then never stores a record, while an update does not fail on it |
| Server.UpdateCanDuplicateExam | backend/server.js:93-100 | an update can make two records share a (register number, exam) pair |
| Server.Matching | backend/server.js:155-157 | every record found has exactly the searched register number, and each record with that number is found as often as the table holds it |
| Server.Lookup | backend/server.js:145-168 | check-mark: 400 exactly when the register number is empty; not found exactly when no record has the trimmed number; otherwise the found list is `Matching` of the trimmed number: every record with that number, once per stored copy, in table order, and nothing else |
| Server.AddedIsFound | backend/server.js:153-160 | a record stored by an add is found by a check with the register number in any padding |
| Server.LookupTrimsInput | backend/server.js:149-153 | only the trimmed register number matters to a lookup that is not blank |
| Server.AdminLogin | backend/server.js:134-142 | login succeeds with status 200 exactly for the password `1156`; otherwise 401 |
| Server.NewestFirst | backend/server.js:116 | all-marks lists every record once, most recently updated first |
| Server.StampedAppend | backend/server.js:39 | appending a record stamped with the next id and the current time keeps ids and update times unique |
| Server.StampedOverwrite | backend/server.js:39 | replacing a record under its id with a fresh update time keeps ids and update times unique |
| Server.MarkStore.constructor | backend/server.js:42 | the store starts empty and consistent |
| Server.MarkStore.AddMark | backend/server.js:47-82 | the outcome is `AddOutcome` of the old table; only an added record changes the table, appended with the next id and time |
| Server.MarkStore.Save | backend/server.js:76 | saving appends the record and advances the id counter and the clock, keeping the invariant |
| Server.MarkStore.UpdateMark | backend/server.js:85-110 | the outcome is `UpdateOutcome` of the old table; only an update changes the table, by `Overwrite` |
| Server.MarkStore.AllMarks | backend/server.js:113-122 | returns `NewestFirst` of the table |
| Server.MarkStore.CheckMark | backend/server.js:145-168 | returns `Lookup` on the table and changes nothing |
| Records.ToNumber | frontend/src/components/User.jsx:10 | `Number(mark)` is `NaN` exactly for non-numeric text and a missing mark; a number reads as itself, and a blank or `null` as 0 |
| Report.GradeOf | frontend/src/components/User.jsx:11-18 | the grade is the highest band whose threshold the mark reaches |
| Report.GetGrade | frontend/src/components/User.jsx:9-19 | a numeric mark gets its band; a blank, null, missing or non-numeric mark is a D |
| Report.GradeMonotone | frontend/src/components/User.jsx:11-18 | a higher mark never gets a lower grade |
| Report.GradeBoundaries | frontend/src/components/User.jsx:11-17 | each threshold is in its band and the mark one below it is in the band beneath |
| Report.Earned | frontend/src/components/User.jsx:93 | `Number(mark) \|\| 0` is the numeric mark, and 0 for anything else |
| Report.TotalEarned | frontend/src/components/User.jsx:93 | with every mark between 0 and 50, the total is between 0 and the total obtainable |
| Report.TotalMax | frontend/src/components/User.jsx:94 | the total obtainable is 50 per subject, 0 exactly when there are no subjects |
| Report.TotalEarnedAppend | frontend/src/components/User.jsx:93 | the total of two lists of subjects is the sum of their totals |
| Report.ReportExample | frontend/src/components/User.jsx:93-94 | marks 18 and 45 total 63 of 100, graded D+ and A+ |
| Admin.ArabicRomanRoundTrip | frontend/src/components/Admin.jsx:6-17 | each class number maps to a numeral that maps back to it |
| Admin.RomanArabicRoundTrip | frontend/src/components/Admin.jsx:6-17 | each numeral maps to a class number that maps back to it |
| Admin.RomanToArabicDigits | frontend/src/components/Admin.jsx:13-17 | the class numbers of the numerals are digit strings |
| Admin.ToRomanClass | frontend/src/components/Admin.jsx:20-29 | a class name that is empty or does not start with a digit is shown as it is |
| Admin.RomanClassOf | frontend/src/components/Admin.jsx:22-26 | digits plus a suffix are shown as the digits' numeral (or the digits, outside 1-12) plus the same suffix |
| Admin.RomanClassLineBreak | frontend/src/components/Admin.jsx:22-28 | a class name whose suffix holds a line terminator fails the pattern and is shown as it is |
| Admin.ClassMatchesFilter | frontend/src/components/Admin.jsx:32-45 | an empty filter and a case-insensitive direct match both match; otherwise a numeral filter matches exactly the classes containing its number, and any other filter matches exactly the classes whose upper-cased display contains it |
| Admin.ContainsDigitsIgnoresCase | frontend/src/components/Admin.jsx:40 | lower-casing the class name neither creates nor destroys an occurrence of a number |
| Admin.OccursIgnoresCase | frontend/src/components/Admin.jsx:40 | at a given position, a number occurs in the lower-cased name exactly when it occurs in the name |
| Admin.NumeralFilterFindsPrefix | frontend/src/components/Admin.jsx:38-41 | a numeral filter matches every class whose name starts with its number |
| Admin.Shown | frontend/src/components/Admin.jsx:236 | every shown record matches the filter |
| Admin.ShownMembers | frontend/src/components/Admin.jsx:236 | a record is shown exactly when it is in the list and matches the filter |
| Admin.RecordsOfClass | frontend/src/components/Admin.jsx:240-242 | every record of a group has that group's key |
| Admin.RecordsOfClassSnoc | frontend/src/components/Admin.jsx:242 | pushing a record extends exactly the group of its own key |
| Admin.RecordsOfAbsentClass | frontend/src/components/Admin.jsx:241 | a key that no record has gives an empty group |
| Admin.FirstAppearance | frontend/src/components/Admin.jsx:238-243 | there are no more keys than records |
| Admin.FirstAppearanceOnce | frontend/src/components/Admin.jsx:238-243 | each class of the list is among the keys exactly once, and nothing else is |
| Admin.GroupingKeySet | frontend/src/components/Admin.jsx:238-243 | the grouping has a group for each class of the list and no other |
| Admin.GroupingKeyOrder | frontend/src/components/Admin.jsx:238-243 | the grouping creates its keys in order of first appearance |
| Admin.GroupingIsByClass | frontend/src/components/Admin.jsx:238-243 | each group holds exactly the records of its class, in list order |
| Admin.GroupByClass | frontend/src/components/Admin.jsx:238-243 | the loop gives the keys in order of first appearance, one group per class present, and each group is the records of that class in list order |
| Admin.GroupTotalEmpty | frontend/src/components/Admin.jsx:238-243 | an empty list has empty groups |
| Admin.GroupTotalSnoc | frontend/src/components/Admin.jsx:242 | one more record adds one to the group total for each time its key is named |
| Admin.GroupsPartition | frontend/src/components/Admin.jsx:238-243 | when each class is named once, the group sizes add up to the number of records |
| Admin.ParseInt | frontend/src/components/Admin.jsx:246-247 | `parseInt` reads a number only from a text that contains a digit |
| Admin.Unsigned | frontend/src/components/Admin.jsx:246-247 | the text after the sign is the text itself or the text less its first character |
| Admin.ParseSigned | frontend/src/components/Admin.jsx:246-247 | a number is read exactly when digits follow the optional sign |
| Admin.ParseIntOf | frontend/src/components/Admin.jsx:246-247 | whitespace, an optional sign, digits and a text not starting with a digit read as the signed value of the digits |
| Admin.ParseSignedOf | frontend/src/components/Admin.jsx:246-247 | after the whitespace, an optional sign and digits read as their signed value |
| Admin.ParseUnsignedOf | frontend/src/components/Admin.jsx:246-247 | digits without a sign read as their value |
| Admin.UnsignedOfDigit | frontend/src/components/Admin.jsx:246-247 | a text starting with a digit has no sign |
| Admin.ParseSignOf | frontend/src/components/Admin.jsx:246-247 | a sign followed by digits reads as the digits' value with that sign |
| Admin.ParseIntNaN | frontend/src/components/Admin.jsx:246-247 | whitespace and an optional sign not followed by a digit read as `NaN` |
| Admin.SortNumber | frontend/src/components/Admin.jsx:246-247 | `parseInt(key) \|\| 999` is never 0; a key starting with a digit sorts by its leading number (999 for 0), and a key starting with anything but a digit, whitespace or a sign sorts as 999 |
| Admin.SortNumberOf | frontend/src/components/Admin.jsx:246-247 | any key of the form whitespace, optional sign, digits, non-digit text sorts by the signed value of the digits, or 999 when that is 0 |
| Admin.SortNumberNaN | frontend/src/components/Admin.jsx:246-247 | any key of the form whitespace, optional sign, then no digit sorts as 999; with `SortNumberOf` this covers every key |
| Admin.ObjectKeys | frontend/src/components/Admin.jsx:245 | `Object.keys` lists each key of the object exactly as often as it was created: the array-index keys first, in increasing order, then the other keys in insertion order |
| Admin.ClassKeysStable | frontend/src/components/Admin.jsx:245-249 | keys with the same sort number keep the order `Object.keys` gave them |
| Admin.ClassKeys | frontend/src/components/Admin.jsx:245-249 | the class keys are a permutation of the group keys, sorted by their sort number |
| Admin.ClassList | frontend/src/components/Admin.jsx:235-249 | the view has one group per class of the filtered records, each holding that class's records, each key listed once, and every shown record in exactly one group; the keys are `ClassKeys` of the first-appearance keys, so they are in sort-number order and keys with the same sort number keep the `Object.keys` order (`ClassKeysStable`) |
| Admin.BlankForm | frontend/src/components/Admin.jsx:67-75 | a reset form has seven empty subject rows |
| Admin.PadSlots | frontend/src/components/Admin.jsx:126-127 | the edit form has seven rows: the record's first seven subjects, then empty rows |
| Admin.PaddingIsDropped | frontend/src/components/Admin.jsx:126-127 | the server's subject filter removes exactly the padding the form added |
| Admin.EmptyRowsDropped | frontend/src/components/Admin.jsx:127 | empty rows never reach the database |
| Admin.LoadedSubjectsSaveBack | frontend/src/components/Admin.jsx:126-127 | at most seven stored rows survive the form unchanged |
| Admin.EditAndSaveUnchanged | frontend/src/components/Admin.jsx:117-128 | opening a stored record with at most seven subjects and saving it unchanged rewrites the same record; only its update time moves |
| Admin.EditAndSaveTruncates | frontend/src/components/Admin.jsx:117-128 | opening a stored record with more than seven subjects and saving it unchanged keeps only its first seven subjects; everything else but the update time is kept |
| Admin.IndexOfDistinctId | backend/server.js:93 | with distinct ids, looking up a record's id finds that record |
| Admin.ChangeSubject | frontend/src/components/Admin.jsx:83-87 | `handleSubjectChange` changes the one field of the one row, and nothing else |
| Admin.ChangesCommuteAndOverride | frontend/src/components/Admin.jsx:83-87 | edits of different rows commute, and a later edit of the same field overrides an earlier one |
| Admin.IsPassed | frontend/src/components/Admin.jsx:332 | a record passes exactly when it has subjects and none of them is graded D |
| Admin.PassedEarnsAtLeast | frontend/src/components/Admin.jsx:332 | a passing record earns at least 18 per subject |
| Admin.PassExamples | frontend/src/components/Admin.jsx:332 | marks 10 and 20 fail, 18 and 45 pass, and no subjects fails |

## Left out

- The network and the process: the Express wiring, the MongoDB connection, the health route, environment variables and HTTP headers. The database is an in-memory table.
- Concurrency: two requests that interleave between `findOne` and `save` can both add the same exam. The model runs one request at a time.
- Store identities: MongoDB `ObjectId`s are natural numbers here. A malformed id, which makes the update fail with a 500, cannot be written.
- The percentage shown on the report card (floating-point division).
- The rendering of the views, Axios and SweetAlert, printing, and the component state hooks. The other components (`App.jsx`, `Login.jsx`, `Footer.jsx`) are not part of this model.
- Absent JSON text fields are modelled as `''`. This is faithful for the add handler's tests and the form. A subject row without a `mark` is modelled apart, as `Absent`: the subject filter keeps it, the add handler's save refuses it, and an update stores it. In an update, however, Mongoose leaves a field untouched when it is `undefined`, while the model writes `''`. Values of the wrong JSON type, such as a numeric `registerNumber` or a non-string password, are not modelled.
- Marks are whole numbers, blanks, `null` or non-numeric text. Fractions, `Infinity` and numeric strings with blanks are not distinguished from these cases.
- `Text.Trim`, `Text.ToLower`, `Text.ToUpper`: only ASCII whitespace and ASCII letters are handled. JavaScript also trims the Unicode space characters and case-maps non-ASCII letters.
- `Admin.ParseInt`: hexadecimal prefixes and digit runs too long to be represented exactly as a double are not modelled. Class names do not contain them.
- `Admin.ObjectKeys`: a class name equal to a property inherited from `Object.prototype` is not modelled. With `constructor`, for example, the grouping code would fail.
- `Admin.FirstAppearance`: its own contract states only a bound. What it means is in `FirstAppearanceOnce` and `GroupingKeyOrder`.
- `Admin.ToRomanClass`: its own contract covers only the names it leaves alone. The digit case is stated by `RomanClassOf`.
- `Admin.ClassMatchesFilter`: results for concrete class names, such as `I` against `10`, are stated only through `NumeralFilterFindsPrefix`.
- Pagination: the `currentPage` and `itemsPerPage` state of the console is never used by the list, so the model has none.
