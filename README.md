# Backlog tool: API rules and backlog table logic

This project models the two parts of the backlog tool that carry logic.

- **The REST server** (`backend/index.js`). It holds an `ideas` table of user stories and a `users` table of accounts. Each account has one of the roles `admin`, `po` or `developer`.
  - `POST /ideas` inserts a story and derives its display number `US-###` from the new id.
  - `PUT /ideas/:id` is the admin-only sparse update of seven fields.
  - `PUT /ideas/:id/priority` is the po/admin priority update.
  - `/auth/register` and `/auth/login` create accounts and issue signed tokens.
  - `authenticate` turns the `Authorization` header into `req.user`.
  - A CORS callback decides which browser origins may call the API.
- **The backlog table page** (`frontend/src/pages/Home.jsx`).
  - Its state is `{backlog, sortBy, sortDirection, search}`. A header click toggles the sort, and a vote response replaces the matching row.
  - It derives a sorted copy of the backlog and, from that copy, the rows whose story matches the search text.

Files:

- `wrappers.dfy`: `Option`. `None` stands for JavaScript `undefined`.
- `strings.dfy`: the string built-ins the code uses. These are `toLowerCase` (ASCII), `includes`, `split(" ")`/`join`, `String(n)`, `padStart`, and a lexicographic order standing in for `localeCompare`. Each comes with its round-trip or characterisation lemma.
- `idea_records.dfy`: the row of `ideas` shared by server and page.
- `api.dfy`: the server.
  - Pure parts are functions: the origin check, `usNumber`, token extraction, registration checks and the sparse-patch meaning.
  - `Backlog` is a class whose map fields are the two tables, with two auto-increment counters. Each route handler is a method that changes the tables in one atomic step and returns a `Response`.
  - The full update builds its `SET` clause step by step (`SetClause`). This is proved to write exactly the sparse patch `Patched`.
- `home.dfy`: the page.
  - The comparator, a stable insertion sort standing in for `Array.prototype.sort`, the story filter and the vote reconciliation are functions with lemmas.
  - `HomeView` is a class holding the four state variables. Its methods are the state setters.

External calls are parameters:

- `bcrypt.hash`'s result is the `hashed` argument of `Register`. It is salted, so it is not a function of the password.
- `bcrypt.compare`, `jwt.sign` and `jwt.verify` are function-typed arguments with no interpretation. A token verifies to a `Payload(id, role)` or fails.

SQL column defaults are the opaque `Defaults` record given to the `Backlog` constructor.

The model keeps these behaviours of the code as they are written:

- There is no 404 anywhere. `PUT /ideas/:id` on a missing id answers 200 with `rows[0]`, which is `undefined` (`RowBody(None)`). `PUT /ideas/:id/priority` on a missing id answers 204.
- `POST /ideas` does not validate `story`. A missing story is stored as NULL.
- There is no vote handler, no vote-once rule and no delete handler in the server.
- For a known username with a password that is not a string, `bcrypt.compare` rejects. Its promise has no `catch`, so no response is sent (`Unanswered`). On Node 15 and later the unhandled rejection also ends the server process (see "Left out").
- On the page, `toString()` on a null sort column throws, and so does `toLowerCase()` on a null story. The derived lists are `None` in exactly those cases.

## Model

| member | source | states |
|---|---|---|
| `Api.CheckOrigin` | backend/index.js:10-20 | an origin is accepted exactly when it is absent, empty or one of the two listed origins; every other origin is rejected with the CORS policy message |
| `Strings.DecimalString` | backend/index.js:62 | `String(n)` is a non-empty string of decimal digits, a single digit exactly for n < 10, and starting with '0' only for n = 0 |
| `Strings.DigitStringsEqual` | backend/index.js:62 | two digit strings of the same length that denote the same number are equal |
| `Strings.ParseDecimalString` | backend/index.js:62 | reading the decimal digits of `n` back gives `n` |
| `Strings.PadStart` | backend/index.js:62 | `padStart` yields length max(width, \|s\|), ends with `s` and is filled with the pad character in front |
| `Strings.ParseLeadingZeros` | backend/index.js:62 | leading `'0'` padding does not change the number a digit string denotes |
| `Api.FormatUsNumber` | backend/index.js:61-62 | the usNumber is `"US-"` followed only by digits, at least 6 characters long |
| `Api.UsNumberWidth` | backend/index.js:62 | the usNumber is 3 + max(3, number of digits of the id) characters long |
| `Api.UsNumberCanonical` | backend/index.js:61-62 | any string of the usNumber's width that parses to the id is the usNumber, so it carries no zeros beyond the padding to three |
| `Api.UsNumberRoundTrip` | backend/index.js:61-62 | the id can be read back from its usNumber: parse(format(id)) = id |
| `Api.UsNumberInjective` | backend/index.js:61-62 | distinct ids give distinct usNumbers |
| `Api.UsNumberExamples` | backend/index.js:62 | id 7 gives "US-007", 42 gives "US-042", 1234 gives "US-1234" |
| `Api.UsNumbersUnique` | backend/index.js:55-66 | in a well-formed ideas table no two rows share a usNumber |
| `Strings.Split` | backend/index.js:184 | `split(" ")` gives at least one part and no part contains the separator |
| `Strings.JoinSplit` | backend/index.js:184 | joining the parts of a split with the separator gives back the header |
| `Strings.SplitJoin` | backend/index.js:184 | splitting a join of separator-free parts gives exactly those parts |
| `Api.BearerToken` | backend/index.js:184-185 | an extracted token exists only for a present header, is non-empty and contains no space; an empty second part (as in `"Bearer  tok"`) yields no token |
| `Api.BearerTokenIsSecondPart` | backend/index.js:184 | the token is the second space-separated part of the header, whatever parts follow it |
| `Api.BearerTokenOfScheme` | backend/index.js:184 | `"Bearer " + t` yields `t` for a non-empty space-free `t` |
| `Api.NoSpaceNoToken` | backend/index.js:184-185 | a header without a space yields no token, so the request gets 401 |
| `Api.Authenticate` | backend/index.js:183-191 | `req.user` exists exactly when a token was extracted and verified, and it is then the verified payload |
| `Api.Truthy` | backend/index.js:126 | undefined, null and `""` are falsy; a body value is truthy exactly when it is a non-empty string |
| `Api.RegistrationCheck` | backend/index.js:126-134 | "required" exactly when username, password or role is falsy; "Invalid role" exactly when all are truthy and the role is not admin/po/developer; otherwise the request passes |
| `Api.Patched` | backend/index.js:93-106 | sparse patch: every field that is not undefined takes the body's value (null and "" included), every undefined field and id, usNumber and votes keep theirs |
| `Api.PatchedIdempotent` | backend/index.js:100-106 | applying the same patch twice equals applying it once |
| `Api.PushIfDefined` | backend/index.js:100-106 | one check appends the field and its value exactly when the field is defined, keeping the clause well-formed |
| `Api.SetClause` | backend/index.js:97-110 | the built `fields`/`values` list exactly the defined fields, in check order, each with its value; the list is empty exactly when no field is defined |
| `Api.ClauseComplete` | backend/index.js:100-110 | after the seven checks the clause covers exactly the present fields and is empty exactly for an empty patch |
| `Api.ApplySet` | backend/index.js:112-115 | the UPDATE never changes the id, the usNumber or the vote counts |
| `Api.ApplySetColumns` | backend/index.js:112-115 | the UPDATE writes each listed column with its value and leaves every other column, the id, usNumber and votes alone |
| `Api.SetClausePatches` | backend/index.js:97-115 | executing the built SET clause on a row gives exactly the sparse patch of that row |
| `IdeaRecords.SqlParam` | backend/index.js:199-202 | an undefined query parameter is sent as NULL, a defined one as itself |
| `IdeaRecords.Idea.With` | backend/index.js:201 | a single-column update changes that column only |
| `Api.NewIdea` | backend/index.js:55-66 | the inserted row has the new id, the given story, the usNumber derived from the id, and the column defaults everywhere else |
| `Api.Backlog.constructor` | backend/index.js:55-66 | the tables start empty and both auto-increment counters at 1, which makes the first inserted idea id 1 |
| `Api.Backlog.ListIdeas` | backend/index.js:42-47 | GET /ideas lists every row once, each equal to the stored row, newest (highest id) first |
| `Api.Backlog.CreateIdea` | backend/index.js:50-82 | a row is added at a fresh id with the given story (NULL if undefined), the usNumber derived from that id and defaults elsewhere; other rows and users are unchanged; the answer is 201 with that row |
| `Api.Backlog.UpdateIdea` | backend/index.js:85-122 | non-admin gets 403 before the body is read, an admin with no defined field gets 400, both leaving the table unchanged; otherwise the target row, if present, is patched, no other row changes, and 200 carries the row read afterwards (undefined if absent) |
| `Api.Backlog.UpdatePriority` | backend/index.js:193-208 | a role other than po/admin gets 403 and nothing changes; otherwise only the target row's priority changes (nothing if there is no such row) and the answer is 204 |
| `Api.Backlog.PutIdea` | backend/index.js:85-89 | the full update route runs `authenticate` first: no verified token gives 401 and no change, otherwise the handler runs with the verified role |
| `Api.Backlog.PutPriority` | backend/index.js:193-197 | the priority route runs `authenticate` first: no verified token gives 401 and no change, otherwise the handler runs with the verified role |
| `Api.Backlog.Register` | backend/index.js:124-156 | 400 with the validation message leaves users and the id counter unchanged; 409 for a taken username leaves users unchanged but uses up one user id, as the failed INSERT draws an auto-increment value (InnoDB); otherwise exactly one user with the hash and role is added under a fresh id and the answer is 201 |
| `Api.Backlog.Known` | backend/index.js:160-166 | the username lookup finds a row exactly when the body's username is a string some stored user has |
| `Api.Backlog.Login` | backend/index.js:158-181 | unknown username and wrong password give the identical 401 "Invalid credentials"; success gives a token signed over {id, role} of the stored user plus that role, which is always a valid role; a non-string password for a known user gets no answer |
| `Strings.LowerChar` | frontend/src/pages/Home.jsx:41-42 | 'A'..'Z' become 'a'..'z' (code point + 32) and every other character stays |
| `Strings.Lower` | frontend/src/pages/Home.jsx:41-42 | `toLowerCase` keeps the length, maps each of 'A'..'Z' to its lower-case letter, keeps every other character and leaves no upper-case letter |
| `Strings.LowerCaseInsensitive` | frontend/src/pages/Home.jsx:41-42 | two strings lower-case to the same string exactly when they differ only in ASCII case |
| `Strings.LowerEqualUpToCase` | frontend/src/pages/Home.jsx:41-42 | a string and its lower-cased form differ only in ASCII case |
| `Strings.Includes` | frontend/src/pages/Home.jsx:50 | `includes` holds for the empty needle and only for a needle no longer than the haystack |
| `Strings.IncludesIff` | frontend/src/pages/Home.jsx:50 | `includes` holds exactly when the needle occurs at some index of the haystack |
| `Strings.LexCompare` | frontend/src/pages/Home.jsx:44-45 | the stand-in for `localeCompare` returns -1, 0 or 1, and 0 exactly for equal strings |
| `Strings.LexAntisymmetric` | frontend/src/pages/Home.jsx:43-45 | swapping the arguments negates the comparison |
| `Strings.LexTransitive` | frontend/src/pages/Home.jsx:43-45 | the order is transitive |
| `Home.Flip` | frontend/src/pages/Home.jsx:74 | the toggle always changes the direction |
| `Home.KeyText` | frontend/src/pages/Home.jsx:41-42 | the sort key has no upper-case letter and, for a string column, differs from the column value only in ASCII case |
| `Home.Compare` | frontend/src/pages/Home.jsx:39-46 | the comparator returns -1, 0 or 1; 0 whenever no column is chosen, and otherwise 0 exactly when the two lower-cased keys are equal |
| `Home.CompareIgnoresCase` | frontend/src/pages/Home.jsx:41-45 | column values that differ only in ASCII case tie |
| `Home.CompareAntisymmetric` | frontend/src/pages/Home.jsx:40-45 | swapping two rows negates the comparison, for every column choice and direction |
| `Home.CompareTransitive` | frontend/src/pages/Home.jsx:40-45 | the comparator is transitive, so it is a total preorder |
| `Home.CompareTiesAlike` | frontend/src/pages/Home.jsx:40-45 | rows the comparator calls equal compare alike against every row |
| `Home.Insert` | frontend/src/pages/Home.jsx:39 | an insertion adds exactly the one element, and it ends with that element or the old last one |
| `Home.InsertOrdered` | frontend/src/pages/Home.jsx:39-46 | inserting into an ordered list keeps it ordered |
| `Home.SortItems` | frontend/src/pages/Home.jsx:39-46 | the sort result is a permutation of its input and ordered by the comparator |
| `Home.SortStable` | frontend/src/pages/Home.jsx:39-46 | rows the comparator ties keep their relative order (the sort is stable) |
| `Home.UnsortedKeepsOrder` | frontend/src/pages/Home.jsx:40 | with `sortBy` null the sort returns the list element for element |
| `Home.SortThrows` | frontend/src/pages/Home.jsx:39-41 | sorting throws exactly when a column is chosen, the list has two or more rows and some row holds null in that column |
| `Home.SortedBacklog` | frontend/src/pages/Home.jsx:39-46 | `sortedBacklog` throws exactly when a column is chosen, there are two or more rows and one has a null value there; otherwise it is a permutation of the backlog of the same length, ordered, and equal to the backlog when `sortBy` is null |
| `Home.SortedByLowercasedColumn` | frontend/src/pages/Home.jsx:41-45 | consecutive sorted rows carry string values whose lower-cased forms ascend for "asc" and descend for "desc" |
| `Home.SortedBacklogStable` | frontend/src/pages/Home.jsx:39-46 | rows with equal lower-cased values appear in `sortedBacklog` in their backlog order |
| `Home.MatchesSearch` | frontend/src/pages/Home.jsx:49-50 | a matching row has a string story at least as long as the search text; with an empty search every row with a string story matches |
| `Home.MatchesSearchIgnoresCase` | frontend/src/pages/Home.jsx:49-50 | changing the ASCII case of the story or of the search text does not change whether a row matches |
| `Home.Filter` | frontend/src/pages/Home.jsx:49 | `filter` keeps at most the input's length and only items satisfying the callback |
| `Home.FilterConcat` | frontend/src/pages/Home.jsx:49 | filtering distributes over concatenation, so it keeps the original order |
| `Home.FilterMembership` | frontend/src/pages/Home.jsx:49-51 | an item is in the filtered list exactly when it is in the input and satisfies the callback |
| `Home.FilterAll` | frontend/src/pages/Home.jsx:49-51 | when every item satisfies the callback, filtering returns the list unchanged |
| `Home.FilteredBacklog` | frontend/src/pages/Home.jsx:49-51 | `filteredBacklog` throws exactly when sorting throws or a story is null; otherwise it is the filter of `sortedBacklog`, holds exactly the backlog rows whose lower-cased story includes the lower-cased search, and equals `sortedBacklog` for an empty search |
| `Home.Reconcile` | frontend/src/pages/Home.jsx:64-66 | the reconciled list has the same length, the updated item at every position whose id matches, every other item unchanged, and the same ids everywhere |
| `Home.ReconcileIdempotent` | frontend/src/pages/Home.jsx:64-66 | applying the same vote response twice equals applying it once |
| `Home.HomeView.constructor` | frontend/src/pages/Home.jsx:23-26 | the initial state is an empty backlog, no sort column, "asc" and an empty search |
| `Home.HomeView.Load` | frontend/src/pages/Home.jsx:32 | storing the fetched list replaces the backlog and nothing else |
| `Home.HomeView.SetSearch` | frontend/src/pages/Home.jsx:104 | typing in the search box replaces the search text and nothing else |
| `Home.HomeView.HandleSort` | frontend/src/pages/Home.jsx:72-79 | clicking the current column flips the direction and keeps the column; clicking another column selects it ascending; backlog and search are untouched |
| `Home.HomeView.ApplyVote` | frontend/src/pages/Home.jsx:63-66 | a vote response replaces the backlog by its reconciliation and changes nothing else |
| `Home.HomeView.Rows` | frontend/src/pages/Home.jsx:177 | every rendered row comes from the backlog, and with no sort column the rows are the matching backlog rows in backlog order |

## Left out

- Express, the cors middleware wiring, `express.json`, `express.static` and `app.listen`: HTTP plumbing. A rejected origin's error becomes Express's error response, which is not modelled.
- Api.Backlog.Login: for a known username with a non-string password the model answers nothing (`Unanswered`) and keeps serving. Under Node 15 and later, whose default unhandled-rejection mode is `throw`, the rejection of `bcrypt.compare` at backend/index.js:169 ends the process, and every later request goes unanswered as well. Process lifetime is not modelled.
- The mysql2 pool, its connection limit and queueing, and the callback chaining. Each handler is one atomic step on the in-memory tables. The moment between the idea INSERT and the usNumber UPDATE is not visible.
- Every 500 path: database errors, and `bcrypt.hash` throwing inside the registration `try`. These are store and library failures outside the code's logic.
- SQL column defaults for epic, criteria, priority, storyPoints, moscow, state and the vote counts. They are the opaque `Defaults` record, because the schema is not part of this model.
- `created_at` and `ORDER BY created_at DESC`. `Backlog.ListIdeas` orders by the auto-increment id, which is the creation order. Rows created in the same second, whose order MySQL leaves open, are not distinguished.
- The ideas table is modelled as starting empty with ids 1, 2, 3, … and no gaps. Gaps left by failed inserts do not arise because failures are not modelled.
- User ids: the only failed INSERT modelled is the duplicate-username one, which uses up an id as InnoDB's auto-increment does. Gaps from 500 failures, and other `innodb_autoinc_lock_mode` settings, are not modelled.
- bcrypt hashing and comparison, and JWT signing, verification and the 2-hour expiry. They are foreign cryptographic calls, so they are parameters with no interpretation.
- The `:id` path parameter is modelled as the integer MySQL compares. MySQL's conversion of the string (for example `"5abc"` to 5) is not modelled.
- Usernames are compared by exact string equality. The column's collation, which could be case-insensitive, is not visible in the code.
- Request-body values other than null and strings (numbers, booleans, objects) are not modelled. Truthiness is therefore "defined, not null, not empty".
- `toLowerCase` is ASCII-only and `localeCompare` is plain code-point order (`LexCompare`). Unicode case mapping and locale collation are not modelled.
- A vote endpoint, a per-identity vote-once rule, delete and 404 behaviour: the server has none of them. Home.jsx posts to `/ideas/:id/vote`, which no handler serves. `ApplyVote` models only what happens once a response item arrives.
- `fetch`, JSON parsing, `console.error` and the `useEffect` loading in Home.jsx: I/O. `HomeView.Load` stands for the `setBacklog(data)` at the end of the fetch.
- JSX markup, `badgeColors` and the SVG sort icons: rendering only.
- frontend/src/components/editModal.jsx, frontend/src/pages/Register.jsx, frontend/src/components/navbar.jsx, frontend/src/App.jsx, frontend/src/components/footer.jsx, frontend/src/pages/Admin.jsx and frontend/src/pages/Submit.jsx are not part of this model. They are forms, routing and static pages.
- Home.SortedBacklog: which pairs V8's sort compares, and in what order, is not modelled. The model is a stable insertion sort. Any stable sort gives the same result for a total preorder comparator.
