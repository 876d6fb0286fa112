# Student records: a verified model of the CRUD core

The service keeps a table of students. Each row has an `id`, the six columns
`name`, `address`, `city`, `state`, `email` and `phone`, and a `created_at`
timestamp. It exposes list, get, create, update, delete and export over
HTTP. A browser client shows the rows in a filterable table, edits them in a
modal form and imports a JSON file of rows one create at a time.

This project models that core in Dafny:

- `text.dfy` (module `JsText`): the JavaScript string behaviour both sides
  rely on.
  - A request property is either missing or a string.
  - Truthiness, and the `x || fallback` idiom.
  - `trim`, with the full ECMAScript whitespace set.
  - `toLowerCase` and `includes`.
- `validation.dfy` (module `Validation`): the three `studentValidators`
  chains and the columns a handler writes once they pass.
  - The trimmed name must be at least 3 characters long.
  - The email is optional, and an email syntax check decides it.
  - The phone is optional, and `^[0-9]{7,15}$` decides it.
  - Every failure is reported, in chain order, with the code's own messages.
- `records.dfy` (module `Records`): each handler's effect on the table, as
  functions from the table's contents (a map from key to row) to a reply and
  a new table. Also the start-up seed, and the invariants the handlers keep.
- `store.dfy` (module `StudentStore`): the class `StudentTable`. Its one
  field is the table. It has one method per handler and one for the seed.
  - Each write method does the handler's steps in order: validate, write,
    re-read. It is proved to match the `Records` function.
  - The list and export loops are proved to return every row exactly once.
  - The list is newest first.
- `html.dfy` (module `Html`): the client's `escapeHtml`, proved against an
  independent decoder.
- `search.dfy` (module `Search`): the row filter of the client's table.
- `client.dfy` (module `Client`): the modal form and the bulk import.
  - Opening the form on a row copies its columns into single-line inputs,
    which drop line breaks.
  - On submit, every input is trimmed, and the request is PUT or POST
    depending on the hidden id.
  - The import maps each array element to a payload.
  - The import loop is a method, proved against a specification function of
    the whole run. The client reaches the server only through `fetch`, so
    that function takes the server's answer to one POST as a parameter. The
    create handler of `Records` is the server the method runs against.

Three behaviours of the code that the model keeps:

- The validation messages are the Spanish strings of server.js:125-127:
  "Name mínimo 3 caracteres", "Email inválido" and "Teléfono: 7-15 dígitos".
- The list query orders only by `created_at`. Rows with equal timestamps come
  back in no particular order.
- A `null` element in an imported array ends the import. Reading `s.name`
  throws, and the later elements are never sent. An element that is sent and
  rejected does not stop the later ones.

## Model

| member | source | states |
|---|---|---|
| JsText.TrimEnds | server.js:125 | after `trim` neither end of the string is whitespace |
| JsText.TrimTailBlank | server.js:125 | everything after the trim is whitespace |
| JsText.TrimCutsWhitespace | server.js:125 | `trim` removes only whitespace, and only at the two ends; the rest of the string is kept in place |
| JsText.TrimOfTrimmed | public/app.js:85-90 | a string with no whitespace at either end is its own trim |
| JsText.TrimIdempotent | public/app.js:85-90 | trimming twice is the same as trimming once |
| JsText.TrimEmptyIffBlank | public/app.js:41 | the trim is empty exactly when every character is whitespace |
| JsText.ToLower | public/app.js:41-45 | `toLowerCase` keeps the length and folds each character on its own |
| JsText.ToLowerIdempotent | public/app.js:41-45 | a lower-cased string has no upper-case ASCII letter and is its own lower case |
| JsText.Includes | public/app.js:43-45 | `includes` is true exactly when the needle occurs at some position of the haystack |
| JsText.OccursInTail | public/app.js:43-45 | the needle occurs in the tail at a position exactly when it occurs in the whole string one position further on |
| Validation.MatchesPhoneSpec | server.js:127 | the phone check accepts exactly the strings of 7 to 15 ASCII digits and nothing else |
| Validation.DigitRunSpec | server.js:127 | the digit scan stops at the first non-digit or at the end |
| Validation.CollectErrorsSpec | server.js:124-128 | no error exactly when all three chains pass; each chain's error appears exactly when that chain fails; no other error appears; errors come in chain order |
| Validation.ValidateSpec | server.js:124-135 | a payload is accepted exactly when the name, email and phone rules all pass. It is then stored with the trimmed name and '' for each falsy optional property. Otherwise every failing rule is reported |
| Validation.AcceptedIsWellFormed | server.js:124-145 | what an accepted payload writes has a trimmed name of at least 3 characters, and an email and phone that are '' or pass their rule |
| Validation.WellFormedIsAccepted | server.js:124-128 | columns that meet the stored-row invariant pass validation again unchanged |
| Validation.NameAloneDecides | server.js:125-127 | when email and phone are falsy, only the trimmed name's length decides, and the only possible error is the name error |
| Validation.PhoneBoundaries | server.js:127 | six digits fail, seven and fifteen pass, sixteen fail, and a separator fails |
| Records.Get | server.js:112-116 | the row under the key is found when present; otherwise the reply is Not-Found |
| Records.CreateSpec | server.js:131-152 | a rejected payload gets its errors and writes nothing. An accepted payload under a new key is stored normalised and reads back as created. A key already present makes the insert fail. No existing row changes. The status is 422, 500 or 201 in those three cases |
| Records.UpdateSpec | server.js:156-181 | a rejected payload or a missing row leaves the table alone. Otherwise the row keeps its key and `created_at`, takes all six normalised columns, and reads back as returned. Every other row is untouched. The status is 422, 404 or 200 in those three cases |
| Records.UpdateUnchanged | server.js:156-177 | a PUT that carries a stored row's own well-formed columns answers with that row and leaves the table as it was |
| Records.DeleteSpec | server.js:185-193 | exactly the row under the key is removed. Success (200) is reported exactly when it existed, Not-Found (404) otherwise |
| Records.Seed | server.js:62-80 | the sample row is inserted when the table is empty; otherwise the table is unchanged |
| Records.SeedIdempotent | server.js:62-80 | running the start-up step again changes nothing |
| Records.SeedPreservesConsistency | server.js:62-80 | the hard-coded sample row meets the validator's invariant, provided the email check accepts its address |
| Records.CreatePreservesConsistency | server.js:131-148 | every stored row still meets the invariant after a create |
| Records.UpdatePreservesConsistency | server.js:156-177 | every stored row still meets the invariant after an update |
| Records.DeletePreservesConsistency | server.js:185-193 | every stored row still meets the invariant after a delete |
| Records.CreateThenGet | server.js:137-148 | after an accepted create under a new key, a get returns the normalised row with that key and timestamp |
| Records.DeleteTwice | server.js:185-193 | the first delete of a row succeeds and a second delete gets Not-Found |
| Records.UpdateClearsOmitted | server.js:162-170 | an update that omits `address` clears the column to '' |
| Records.ListsOneMore | server.js:101 | adding one more key's row to a partial listing keeps every listed row exactly once |
| Records.ListsAllKeys | server.js:101 | a listing of every key lists each row of the table exactly once and nothing else |
| StudentStore.InsertAddsOne | server.js:101 | placing a row into the ordered list adds exactly that row |
| StudentStore.InsertKeepsBound | server.js:101 | placing a row adds no row newer than a bound that all rows respect |
| StudentStore.InsertKeepsOrder | server.js:101 | placing a row keeps the list newest first |
| StudentStore.InsertListsOneMore | server.js:99-102 | placing the row of one more key keeps a partial listing complete, each row once, and newest first |
| StudentStore.AppendListsOneMore | server.js:201-205 | appending the row of one more key keeps a partial listing complete, each row once |
| StudentStore.StudentTable.constructor | server.js:48-59 | the table starts as whatever `CREATE TABLE IF NOT EXISTS` finds |
| StudentStore.StudentTable.InitializeDatabase | server.js:62-80 | the table afterwards is the seed of the table before |
| StudentStore.StudentTable.GetStudent | server.js:110-116 | the reply is the row under the key, or Not-Found |
| StudentStore.StudentTable.CreateStudent | server.js:131-152 | the reply and the new table are those of the create specification |
| StudentStore.StudentTable.UpdateStudent | server.js:156-181 | the reply and the new table are those of the update specification |
| StudentStore.StudentTable.DeleteStudent | server.js:185-197 | the reply and the new table are those of the delete specification |
| StudentStore.StudentTable.ListStudents | server.js:99-102 | the result lists every row exactly once and nothing else, with `created_at` never increasing |
| StudentStore.StudentTable.ExportStudents | server.js:201-205 | the result lists every row exactly once and nothing else |
| StudentStore.ShortNameRejected | server.js:125 | a two-character name is rejected with the name error alone |
| StudentStore.EmailPayloadAccepted | server.js:124-128 | a name of 8 characters with an email the check accepts passes validation |
| StudentStore.RenameAccepted | server.js:124-128 | a payload holding only a valid name passes validation |
| Html.UnescapeEscape | public/app.js:169-174 | decoding the five entities restores the escaped string |
| Html.EscapeInjective | public/app.js:169-174 | different strings escape to different markup |
| Html.EscapeIdentity | public/app.js:171 | a string without `& < > ' "` is unchanged |
| Html.EscapeSafe | public/app.js:171-173 | the output has no `<`, `>`, `'` or `"`, and every `&` in it starts one of the five entities |
| Html.EscapeHtmlSpec | public/app.js:169-174 | a falsy value renders as ''; any other value is recovered by decoding, and its rendering has no markup character |
| Html.UnescapeOne | public/app.js:171-173 | decoding one character's replacement gives that character back, whatever follows |
| Html.UnescapeEntity | public/app.js:172 | each of the five entities decodes to its own character |
| Html.EscapeCharSafe | public/app.js:171-173 | one character's replacement has no markup character, and its only `&` starts an entity |
| Html.EntityAtShift | public/app.js:171 | an entity stays an entity when more text is put in front |
| Search.FilterIsSubsequence | public/app.js:42-46 | the filter only drops rows and keeps the rest in list order |
| Search.FilterKeepsMatches | public/app.js:42-46 | a matching row is kept as often as it is listed; a non-matching row never is |
| Search.FilterMembership | public/app.js:42-46 | a row is shown exactly when it is listed and its name, city or email contains the query |
| Search.EmptyQueryShowsAll | public/app.js:41-43 | an empty query shows every row, in order |
| Search.BlankInputShowsAll | public/app.js:41-43 | a search box that holds only whitespace shows every row, in order |
| Search.QueryIsNormalized | public/app.js:41 | the query has no upper-case ASCII letter and no whitespace at either end |
| Client.SubmitIsTrimmed | public/app.js:84-91 | every property of the submitted body is present and trimmed, so the server's own trim of the name changes nothing |
| Client.SubmitTargets | public/app.js:92-108 | the add form posts; a form opened on a row puts to that row's id |
| Client.StripLineBreaksSpec | public/app.js:20-25 | a value put into a single-line input holds no line break, and it is unchanged exactly when it had none |
| Client.EditFormDropsLineBreaks | public/app.js:19-25 | the edit form holds the row's key as is; it shows each column unchanged exactly when the column has no line break, and what it shows never has one |
| Client.ColumnRoundTrip | public/app.js:85-90 | a column with no line break and no whitespace at either end comes back unchanged after being shown and trimmed |
| Client.ResubmitPayload | public/app.js:84-108 | submitting an untouched edit form of a row with unpadded single-line columns sends those columns back as they are, to that row's key |
| Client.ResubmitUnchanged | public/app.js:17-108 | saving an edit form without changes leaves a well-formed row with unpadded single-line columns, and the table, as they were |
| Client.ImportMapping | public/app.js:150-157 | the posted name is `name` when truthy, else `fullName` when truthy, else "Unknown"; every other property is the element's when truthy and '' otherwise; the name is always truthy |
| Client.ImportNameDecides | public/app.js:151 | an element without email or phone is accepted exactly when its chosen name trims to at least 3 characters; an element with no name at all is accepted as "Unknown" |
| Client.ImportRunLength | public/app.js:145-159 | whatever the server answers, there is one reply per element before the first null, and the import completes exactly when no element is null |
| Client.CreateKeepsRows | server.js:131-152 | the create handler never changes a row already stored |
| Client.ImportKeepsExisting | public/app.js:145-159 | rows already in the table are never changed by an import to a server that keeps them, as the create handler does |
| Client.CreateOnFreshKey | server.js:131-152 | on a key not yet stored, the create handler creates the row exactly when the body validates, answers with the errors otherwise, and adds no other key |
| Client.ImportEachItem | public/app.js:145-159 | with fresh keys and a server that behaves as the create handler does on them, each element sent is created when its payload validates and gets its validation errors otherwise, whatever happened to earlier elements |
| Client.CreateKeepsConsistent | server.js:131-148 | the create handler keeps every stored row well formed |
| Client.ImportPreservesConsistency | public/app.js:145-159 | an import to a server that keeps every stored row well formed, as the create handler does, keeps them so |
| Client.ImportRunStep | public/app.js:145-158 | the run from one element on is the server's answer to that element followed by the run from the next element on, against the table that answer left |
| Client.ImportAll | public/app.js:145-159 | the loop's replies, final table and completion are those of the import specification |

## Left out

- HTTP plumbing is not modelled. This covers Express routing, body parsing, static files, the logging middleware, `/health` and the root route. JSON serialisation is left out too. Replies are kept as outcomes with their status codes.
- The MySQL pool, the SQL text and connection failures are not modelled. The table is a map from key to row. The only store failure modelled is an insert under a key that already exists.
- Boot failure (`process.exit`) and the SIGTERM shutdown are not modelled.
- `isEmail` is a parameter. Its rules belong to a library outside this model.
- `crypto.randomUUID` and `CURRENT_TIMESTAMP` are values the caller supplies. A repeated key is not excluded; it is modelled as a failed insert.
- MySQL's case-insensitive, trailing-space-insensitive comparison of `WHERE id = ?` is not modelled. Keys match only when they are equal strings.
- Column length limits (`VARCHAR(255)` and the others) and the insert errors they cause are not modelled.
- `isLength` counts code points, and so does the model. The library's exclusion of the variation selectors U+FE0E and U+FE0F from the count is not modelled.
- `toLowerCase` is modelled on ASCII letters only. Other scripts' case mappings are not modelled.
- Request properties and import elements that are numbers, booleans, arrays or objects are not modelled. A property is missing or a string, and an element is `null` or an object.
- The client's `fetch` failures are not modelled. Neither are `JSON.parse` of the uploaded file (including a top-level value that is not an array), `alert`/`confirm`, the modal title and the rendering of form errors.
- The client's `studentsCache` and DOM updates are not modelled. The filter works on the list it is given.
- StudentStore.StudentTable.ListStudents: rows with equal `created_at` come out in no particular order, because the query orders by that column alone.
- StudentStore.StudentTable.ExportStudents: states no order, because the export query has no `ORDER BY`.
- Client.ImportEachItem: assumes pairwise distinct keys none of which is already stored. A repeated key is covered by Records.CreateSpec instead.
- Client.ResubmitUnchanged: covers only rows whose columns have no line break and no whitespace at either end. The form's inputs are modelled as single-line text inputs, which drop every line feed and carriage return when a value is assigned; the page markup that declares them is not part of this model. A column with a line break therefore comes back without it (Client.EditFormDropsLineBreaks), and a padded one comes back trimmed.
- Each handler, and the start-up seed, is modelled as one uninterrupted step on a table that no other request touches meanwhile. Interleavings of concurrent requests are not modelled. Three races follow from this. First, `initializeDatabase()` is not awaited (server.js:88) before `app.listen` (server.js:235), so a POST that lands between the seed's COUNT (server.js:63) and its INSERT (server.js:74-78) leaves both rows. Second, a DELETE between the UPDATE (server.js:166) and its re-read (server.js:176) yields a 200 whose body is `rows[0]`, which is undefined. Third, the create handler has the same gap between its INSERT and its re-read (server.js:141-148).
- An UPDATE that matches a row but changes no value is taken to report that row in `affectedRows`, as the MySQL driver does with its default found-rows flag. The model therefore answers such an update with the row, not with a 404.
