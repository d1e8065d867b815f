# Employee management: validator and in-memory store

This project models the two parts of the employee-management service that carry logic, and proves properties of them in Dafny.

- **`Validator`** (`validator.dfy`) models the request check that the SQLite-backed routes of `app.js` run before they touch the database.
  - A presence check over the five fields `name`, `email`, `gender`, `age`, `department`. An absent key or the empty string fails it.
  - The name/department pattern `^[A-Za-z][A-Za-z .'-]{1,48}$` and the e-mail pattern `^[^\s@]+@[^\s@]+\.[^\s@]+$`. Each is written as a matcher that follows the pattern's structure. Each matcher is proved equal to a declarative description of the strings it accepts.
  - The ordered rule chain `fieldValid`: name, department, e-mail, gender, age. It returns the message of the first rule that fails.
  - The selection "presence message first, otherwise the rule chain" that the POST and PUT routes make.
  - The chain and the selection exist twice: as written, where the name pattern stops at 49 characters, and with the bound the messages announce, 50 characters (see "## Findings").
- **`EmployeeStore`** (`employee_store.dfy`) models the in-memory router of `employees.js`.
  - The module-level `employees` list and `currentId` counter become the fields of the class `Store`. A ghost set `issued` records every id ever handed out.
  - Each handler becomes a method that takes the parsed body or id and returns a `Reply` in place of a status code: list, create (one object or an array), update and delete.
  - The class invariant `Valid` says that:
    - ids are unique and strictly increasing along the list;
    - every listed id was issued;
    - every issued id lies in `[1, currentId)`, so a deleted id is never handed out again.
  - Each state-changing method states the whole new state in terms of the old one. Each is tied to a reference definition on sequences, and lemmas relate the two:
    - `Numbered`/`Admitted` for bulk create;
    - `PatchAll` for update;
    - `DropAll` for delete;
    - `Position` for `find`/`findIndex`.

The source expressions map to these members: `NAME_RE.test`/`DEPT_RE.test` as written to `Validator.MatchNameAsWritten`; `EMAIL_RE.test` to `Validator.MatchEmail`; `o[k] !== undefined && o[k] !== ''` to `Validator.Present`; `emp.name && emp.department` and `!name || !department` to `EmployeeStore.Complete`; the fallbacks `name || emp.name` and `department || emp.department` of an update to `EmployeeStore.Patched`. Their contracts are the lemmas in the table below.

The two modules are independent. The in-memory router does not call the validator: it checks only that `name` and `department` are non-empty.

## Model

| member | source | states |
|---|---|---|
| `Validator.EveryAt` | app.js:36-37 | `.every` over a key list holds iff each listed key is present |
| `Validator.AllFieldsPresent` | app.js:35-38 | the check over the fixed key list passes iff every one of the five fields is present (defined and not `''`) |
| `Validator.MatchRepeatCorrect` | app.js:31 | the bounded repetition `[A-Za-z .'-]{min,max}$` accepts exactly the strings of min to max class characters |
| `Validator.MatchNameAsWrittenShape` | app.js:31 | the name pattern as written accepts exactly the strings of 2 to 49 characters that start with an ASCII letter and continue with letters, spaces, `.`, `'` or `-` |
| `Validator.FiftyLetterNameRejected` | app.js:31 | a fifty-letter name meets the announced 2-50 rule but the pattern as written rejects it |
| `Validator.MatchNameCorrect` | app.js:31-32 | the name and department matcher (with the announced bound) accepts a string iff it has 2 to 50 characters, starts with an ASCII letter and continues with letters, spaces, `.`, `'` or `-` |
| `Validator.NameLengthBounds` | app.js:31 | for strings of the right characters, the name matcher with the corrected `{1,49}` bound accepts exactly the lengths 2 to 50, so 1 and 51 are rejected |
| `Validator.NameMatchersAgree` | app.js:31 | the pattern as written accepts a string iff the corrected pattern does and the string does not have 50 characters |
| `Validator.MatchEmailSound` | app.js:33 | every string the e-mail matcher accepts splits into local part `@` segment `.` segment, all non-empty and free of white space and `@` |
| `Validator.MatchEmailComplete` | app.js:33 | every string of that shape is accepted by the e-mail matcher |
| `Validator.MatchEmailCorrect` | app.js:33 | the e-mail matcher accepts a string iff it has that shape |
| `Validator.EmailSingleAt` | app.js:33 | an accepted address holds exactly one `@` |
| `Validator.EmailExamples` | app.js:42 | `a@b.c` passes; `a@b` and `a@.c` fail |
| `Validator.MessageStart` | app.js:40-44 | proof step for `MessagesDistinct` only: each rule message begins with its own letter (`N`, `D`, `I`, `G`, `A`) and its second character is never the `l` of "All" |
| `Validator.MessagesDistinct` | app.js:40-44 | the five rule messages are pairwise different and none is the presence message, so a message names the rule that failed |
| `Validator.FieldValidAsWritten` | app.js:39-46 | the rule chain as written: returns None iff all five rules hold, names and departments being limited to 49 characters; otherwise returns the message of the first rule in the order name, department, e-mail, gender, age that the fields break |
| `Validator.FieldValid` | app.js:39-46 | the same chain with the corrected `{1,49}` name bound (names and departments up to 50 characters): None iff all five rules hold, otherwise the first broken rule's message |
| `Validator.ChainsAgree` | app.js:39-41 | the chain as written gives the corrected chain's answer, except that a name (or, the name passing, a department) of 50 characters otherwise passing the name rule gets the name (department) message |
| `Validator.FiftyLetterRecordRejected` | app.js:31-40 | a complete record with a fifty-letter name, `a@b.c`, `Male`, 30 and `HR` gets the name message as written and passes once corrected |
| `Validator.ValidateAsWritten` | app.js:50-51 | as written: a missing or empty field gives "All fields are required."; the result is None iff every field is present and every rule holds (names and departments up to 49 characters); with all fields present, an error is the first broken rule's message |
| `Validator.Validate` | app.js:50-51 | the same selection over the corrected chain `FieldValid` (names and departments up to 50 characters) |
| `Validator.MissingFieldRejected` | app.js:50 | any one missing or empty field yields the presence message, whatever the other fields hold, both as written and corrected |
| `Validator.AgeDecides` | app.js:39-44 | with well-formed name, department and e-mail and a listed gender, the corrected chain accepts iff 18 <= age <= 65 and otherwise gives the age message; as written, a 50-character name or department gets its own message first, and any other record gets the corrected chain's answer |
| `Validator.GenderCaseSensitive` | app.js:39-43 | `"male"` is rejected with the gender message, the comparison being case-sensitive; as written, a 50-character name or department is reported before it |
| `EmployeeStore.Position` | employees.js:158 | the result is -1 iff no record holds the id; otherwise it is the first position holding it |
| `EmployeeStore.FindIndex` | employees.js:127 | the linear search returns exactly `Position` |
| `EmployeeStore.Admitted` | employees.js:74-80 | the stored entries of a batch are all complete and no more numerous than the input |
| `EmployeeStore.AdmittedConcat` | employees.js:74-80 | filtering a batch distributes over concatenation, so stored entries keep input order |
| `EmployeeStore.AdmittedPrefix` | employees.js:75-79 | one more entry of the batch is stored exactly when both its name and department are non-empty |
| `EmployeeStore.AdmittedExtremes` | employees.js:74-80 | a batch of complete entries is stored whole; a batch of incomplete ones stores nothing |
| `EmployeeStore.NumberedAt` | employees.js:76 | record k of a numbered batch has id `from + k` and the name and department of entry k |
| `EmployeeStore.NumberedSnoc` | employees.js:76-77 | numbering one more entry appends one record carrying the next id |
| `EmployeeStore.AppendNumberedIncreasing` | employees.js:76-77 | appending a numbered batch behind smaller ids keeps ids increasing and below the advanced counter |
| `EmployeeStore.PatchAllAt` | employees.js:131-132 | a patched list holds, at each position, the old record with name and department replaced by the non-empty new values, or the old record when its id differs |
| `EmployeeStore.IncreasingUnique` | employees.js:5 | with increasing ids, no other record shares the id of a given record, so `find` and `findIndex` have exactly one candidate |
| `EmployeeStore.PatchInPlace` | employees.js:127-132 | when the found record is the only one holding the id, overwriting it in place equals patching every record with that id |
| `EmployeeStore.PatchKeepsIds` | employees.js:131-132 | an update changes no id, so ids stay increasing |
| `EmployeeStore.PatchAbsent` | employees.js:127-128 | patching an id that no record holds changes nothing |
| `EmployeeStore.DropAbsent` | employees.js:158-159 | dropping an id that no record holds changes nothing |
| `EmployeeStore.DropConcat` | employees.js:161 | removing an id distributes over concatenation |
| `EmployeeStore.SpliceIsDrop` | employees.js:158-161 | when the found record is the only one holding the id, splicing it out equals removing exactly the records with that id |
| `EmployeeStore.SpliceIncreasing` | employees.js:161 | splicing a record out keeps the remaining ids increasing, in their old relative order |
| `EmployeeStore.Store.constructor` | employees.js:4-5 | the store starts with an empty list and `currentId` 1 |
| `EmployeeStore.Store.List` | employees.js:24-26 | returns the current list as it is, with increasing ids; it changes nothing, so two lists with no write between them are equal |
| `EmployeeStore.Store.Insert` | employees.js:89-90 | appends `{id: currentId, name, department}`, advances the counter by one, and the new id was never issued before |
| `EmployeeStore.Store.CreateOne` | employees.js:84-91 | an entry with an empty name or department is rejected and nothing changes; otherwise one record with the old counter as id is appended, earlier records are kept, and the counter grows by exactly one |
| `EmployeeStore.Store.CreateMany` | employees.js:72-82 | appends, in input order, exactly the complete entries with consecutive ids from the old counter; returns exactly the appended suffix; the counter grows by the number stored, so rejected entries use no id |
| `EmployeeStore.Store.Post` | employees.js:69-93 | an array body behaves as bulk create, any other body as single create |
| `EmployeeStore.Store.Update` | employees.js:125-135 | an absent id gives NotFound and changes nothing; otherwise the record at the found position gets the non-empty new name and department (keeping the old ones otherwise), its id and position and all other records stay, and the counter is unchanged |
| `EmployeeStore.Store.Delete` | employees.js:156-163 | an absent id gives NotFound and changes nothing; otherwise exactly that record is removed, the rest keep their order, and the counter is unchanged |

## Left out

- The SQLite routes of `app.js` (app.js:14-28, 54-66, 69-74, 81-99, 102-109) are not modelled: the insert, select, update and delete statements, the `UNIQUE COLLATE NOCASE` e-mail constraint, the `CHECK` constraints, `lastID`/`changes`, and the mapping of `SQLITE_CONSTRAINT` to 409 and other errors to 500. Their behaviour lives in the database library, not in the shown code. Case-insensitive e-mail uniqueness is therefore not part of this model.
- Express wiring is not modelled: routing, middleware, static files, `app.listen`, the router export. HTTP status codes and JSON shaping are replaced by `Option<string>` (the validator's error message) and the `Reply` datatype (the store's outcome).
- `swagger.js` and the `@swagger` comments are documentation only.
- JavaScript coercion is not modelled:
  - Ids are `int`. `parseInt` of a non-numeric path segment gives `NaN`, which no record matches; that is the NotFound path.
  - Ages are `Option<int>`. Numeric strings, `NaN` and fractional ages are not modelled.
  - Text fields are strings. Numbers, booleans or `null` sent as text fields, which the regular expressions would coerce to strings, are not modelled.
- In `employees.js`, a missing key and any falsy value of `name` or `department` both become `""`; so does a key of an array element that is a number, string or boolean, which JavaScript reads as `undefined`. A `null` POST body, on which the destructuring at employees.js:85 throws, is not modelled.
- `EmployeeStore.Store.CreateMany`: a `null` element of an array body throws at employees.js:75 in the middle of the batch. The entries before it stay stored, with their ids consumed, and the request fails. `Entry` cannot be `null`, so this partial write is not modelled.
- `EmployeeStore.Store.Post`: inherits from `CreateMany` the unmodelled partial write of an array body holding a `null` element.
- The updated employee is a value that replaces the list element. The source mutates the found object in place and returns that same object. No other reference to it outlives the response, so no aliasing is observable, and none is modelled.
- JavaScript regular expressions count UTF-16 code units, while Dafny characters are Unicode scalar values. The name class is ASCII-only and the e-mail classes only need to be non-empty, so both accept the same strings.
- The code neither trims text fields nor converts numeric-string ages, so the model does neither.
- `Validator.FieldValid`: states the corrected name bound; the program as written rejects 50-character names and departments, which `Validator.FieldValidAsWritten` models.
- `Validator.Validate`: states the corrected name bound; the route as written is `Validator.ValidateAsWritten`.
- `Validator.NameLengthBounds`: is about the corrected matcher; the pattern as written stops at 49 characters (`Validator.MatchNameAsWrittenShape`).
- `Validator.AgeDecides`: its first two clauses are about the corrected chain; the clause on the chain as written covers 50-character names and departments.
- `Validator.GenderCaseSensitive`: its first clause is about the corrected chain; the clause on the chain as written covers 50-character names and departments.
- `EmployeeStore.Store.Insert`: ids and the counter are unbounded `int`. The JavaScript counter is a Number: once it reaches 2^53 (9007199254740992), `currentId++` at employees.js:76 and 89 leaves it there, so the next create gets an id already handed out. Neither this nor the resulting loss of `Valid` (unique, never reissued ids) is modelled.
- Concurrency and the asynchronous database callbacks are not modelled. The in-memory store is single-threaded.
- `EmployeeStore.Store.Post`: besides, for a batch, the contract says only that `issued` grows, not which ids it gains. `CreateMany`'s contract pins down the added records, and `Valid` ties their ids to `issued`.

## Findings

| source | as written | input that shows it | evidently intended | confidence | as-written member | corrected member |
|---|---|---|---|---|---|---|
| app.js:31 | `[A-Za-z][A-Za-z .'-]{1,48}` accepts names and departments of 2 to 49 characters | a name (or department) of 50 letters, for instance fifty `a` characters, is rejected with "Name must contain letters only (2-50)." | 2 to 50 characters, as the comment on that line and the messages at app.js:40-41 announce, that is `{1,49}` | high that the code and its messages disagree; not executed | `Validator.FiftyLetterRecordRejected` | `Validator.MatchNameCorrect` |

`Validator.MatchNameAsWritten` models the pattern exactly as written, and `Validator.MatchNameAsWrittenShape` proves it accepts at most 49 characters; `Validator.FiftyLetterNameRejected` exhibits a fifty-letter name the announced rule admits and the pattern rejects. The rule chain and the route selection as written are `Validator.FieldValidAsWritten` and `Validator.ValidateAsWritten`. `Validator.MatchName` uses the bound `{1,49}`; the corrected chain `Validator.FieldValid` and selection `Validator.Validate` use it for both name and department, and `Validator.ChainsAgree` proves the two chains differ only on 50-character names and departments.
