# Exam registration portal — a verified model

This project models the registration workflow of a portal for exam registrations.
Schools (`etablissements`) log in and register their students for an exam.
Administrators log in, list the registrations, accept or refuse them, and assign
an exam room and centre. A one-off script fills the school table from an embedded
list.

The model has four parts.

- **Backend handlers** (`backend/server.js`): bearer-token extraction, the
  authentication gate, both login checks, the directory search, the batch intake
  of students, both registration listings, the admin update and the statistics.
  The four tables live in one class, `Server.Store`. Handlers that change or scan
  the tables are its methods. Each method is proved against a specification
  function in `Ledger` or `Stats`.
- **School import** (`backend/import-etablissements.js`): `Import.ImportSchools`
  empties the table and inserts every entry in a loop, counting successes and
  failures. Its result is `Import.Imported`.
- **School form** (`frontend/src/pages/EspaceEtablissement.js`): the class
  `SchoolForm.InscriptionForm` holds the form state and its handlers.
- **Admin moderation** (`frontend/src/pages/EspaceAdmin.js`): the class
  `AdminPanel.Panel` holds the two modals, plus the status badge and the
  button rules.

`Workflow` states properties that cross these parts. What the form sends is
stored row by row by the intake. A refusal keeps the row and flips its buttons.
An imported school can log in with the default password.

The modules, in dependency order:

| file | module | content |
|---|---|---|
| common.dfy | Common | `Option`, order-preserving filter-map `Collect`, `FirstIndex`, insertion sort `SortBy` |
| text.dfy | Text | JavaScript `trim`, `split`/`join`, substring search, `replace` of the first occurrence, code-point order, decimal printing |
| records.dfy | Records | table rows, request and reply shapes, JavaScript truthiness |
| auth.dfy | Auth | bearer token, `authenticateToken`, both logins |
| ledger.dfy | Ledger | the rows intake inserts, the rows each listing selects, the update |
| stats.dfy | Stats | the statistics report |
| server.dfy | Server | the `Store` class and its handlers |
| import.dfy | Import | the school import |
| school_form.dfy | SchoolForm | the registration form |
| admin_panel.dfy | AdminPanel | the moderation modals, badge and buttons |
| workflow.dfy | Workflow | cross-part properties |

### How the source's values are represented

- A JSON string field that may be absent or `null` is an `Option<string>`; `None`
  stands for both, which behave alike everywhere except in the update route (see
  `Server.Store.UpdateInscription` under "## Left out").
  JavaScript truthiness of such a field is `Records.Truthy`: present and non-empty.
- `examen_id` and `etablissement_id` are `Option<int>`, the ids they stand for;
  this is the one exception to fields being strings or absent. A truthy
  `examen_id` is present and non-zero.
- The `eleves` field is `Missing`, `NotAnArray` or `Students(list)`.
- SQL `LIKE '%q%'` is plain substring containment.
- `ORDER BY nom` is code-point lexicographic order.
- `ORDER BY date_inscription DESC` is stated as "sorted newest first and a
  permutation of the selected rows". Ties may come out in any order.
- `SUM(statut = 'x')` is `NULL` when no row has a status, so each per-status
  count in the report is an `Option<nat>`.
- Auto-increment ids are counters in the store. `Store.Valid()` states that
  primary keys are unique and below their counter.

## Model

| member | source | states |
|---|---|---|
| Text.Trim | backend/server.js:268-269 | the trimmed string is empty exactly when the input is all ECMAScript whitespace, and otherwise starts and ends with a non-whitespace character |
| Text.TrimStartSuffix | backend/import-etablissements.js:43-44 | removing leading whitespace leaves a suffix of the input, and only whitespace was removed |
| Text.TrimEndPrefix | backend/import-etablissements.js:43-44 | removing trailing whitespace leaves a prefix of the input, and only whitespace was removed |
| Text.TrimIsSlice | backend/server.js:268-269 | `trim()` returns a contiguous slice of the input with only whitespace outside it |
| Text.TrimUntouched | backend/import-etablissements.js:43 | trimming is the identity on a string that does not start or end with whitespace |
| Text.IndexOf | backend/server.js:26 | the first position of a character, or none exactly when it does not occur |
| Text.IndexOfAt | frontend/src/pages/EspaceAdmin.js:132 | a position holding the character with none before it is the first occurrence |
| Text.Split | backend/server.js:26 | `split(sep)` gives at least one part, no part holds the separator, the first part is the prefix up to the first separator, and there are two or more parts exactly when the separator occurs |
| Text.JoinSplit | backend/server.js:26 | joining the parts of a split gives back the string |
| Text.JoinHead | frontend/src/services/api.js:16 | a join of parts starts with its first part, followed by the first separator and the join of the rest |
| Text.SplitJoin | frontend/src/services/api.js:15-16 | splitting a join of separator-free parts gives back the parts |
| Text.ReplaceFirst | frontend/src/pages/EspaceAdmin.js:132 | `replace('_', ' ')` keeps the length and changes only the first occurrence |
| Text.LexLeTotal | backend/server.js:97 | the order used for `ORDER BY nom` relates every pair of names |
| Text.LexLeTransitive | backend/server.js:97 | the order used for `ORDER BY nom` is transitive |
| Text.Decimal | backend/server.js:286 | the printed count is a non-empty digit string without a leading zero |
| Text.DecimalValue | backend/server.js:286 | the printed count reads back as the count |
| Common.CollectMember | backend/server.js:99-101 | a value is in the filtered sequence exactly when some input element maps to it |
| Common.CollectHits | backend/server.js:254-257 | the k-th kept value comes from the k-th kept input position, positions increase, and every kept position is listed |
| Common.FirstIndex | backend/server.js:119-129 | `rows[0]` of a lookup: the first match, or none exactly when nothing matches |
| Common.SortBy | backend/server.js:307 | sorting yields a permutation of its input, sorted by the comparison |
| Auth.BearerToken | backend/server.js:25-26 | the token is present exactly when the header is truthy and holds a space; it is then the space-free field right after the first space |
| Auth.BearerRoundTrip | frontend/src/services/api.js:15-16 | the header `Bearer <token>` built by the frontend yields back that token |
| Auth.Authenticate | backend/server.js:24-39 | 401 `Token requis` without a truthy token, 403 `Token invalide` when verification fails; the route runs exactly when both succeed, with the verified payload |
| Auth.MissingTokenNeverVerified | backend/server.js:25-30 | a missing header, a header without a space (`Bearer`), or one whose only space ends it (`Bearer `) gets 401 whatever the verifier would say |
| Auth.SchoolWithLogin | backend/server.js:119-129 | the first school row with the given login, or none exactly when no row has it |
| Auth.SchoolLogin | backend/server.js:109-159 | 400 when login or password is falsy; 401 when no row has the login; 401 when the first such row's password differs; otherwise a session whose claims have type `etablissement` and whose profile has only id, code, nom, secteur, niveau and commune |
| Auth.SchoolLoginSound | backend/server.js:124-146 | a successful school login comes from a stored row whose login and password both match, and its token and profile carry that row's id |
| Auth.SchoolLoginComplete | backend/server.js:119-159 | with unique logins, every stored school with non-empty credentials logs in with them and gets its own session |
| Auth.AdminWithUsername | backend/server.js:176-186 | the first administrator row with the given username, or none exactly when no row has it |
| Auth.AdminLogin | backend/server.js:166-217 | 400, 401, 401 as for schools; otherwise a session with type `admin` whose profile carries no password |
| Auth.AdminLoginSound | backend/server.js:181-203 | a successful admin login comes from a stored row whose username and password both match |
| Auth.AdminLoginComplete | backend/server.js:176-217 | with unique usernames, every stored administrator with non-empty credentials logs in with them |
| Ledger.NewRowsSnoc | backend/server.js:254-282 | one more student adds one row exactly when its three required fields are truthy |
| Ledger.IntakeOnePerComplete | backend/server.js:254-282 | intake inserts exactly one row per complete student, in input order, and none for an incomplete one |
| Ledger.NewRowFields | backend/server.js:261-275 | each row carries the caller, the exam, trimmed names, the date as sent, trimmed-or-empty place and class, consecutive ids and the number drawn for it, and no room or centre |
| Ledger.WhitespaceNameStoredEmpty | backend/server.js:255-268 | eligibility is checked before trimming, so a whitespace-only name passes and is stored as `''` |
| Ledger.NewRowIds | backend/server.js:277-278 | the new rows have ids `first`, `first+1`, … and so are distinct |
| Ledger.SchoolOf | backend/server.js:331 | the joined school has the registration's school id, and is the only such school when ids are unique; none exactly when no school has that id |
| Ledger.ExamOf | backend/server.js:305 | the joined exam has the registration's exam id, and is the only such exam when ids are unique; none exactly when no exam has that id |
| Ledger.AdminViewSnoc | backend/server.js:328-349 | the admin selection over one more row appends that row's join exactly when it matches |
| Ledger.AdminViewExact | backend/server.js:328-349 | the admin listing holds exactly the registrations that match a truthy `statut` and a given `etablissement_id`, joined with their school's name and code and their exam's name |
| Ledger.AdminSortNewestFirst | backend/server.js:347 | sorting by date gives the admin rows newest first |
| Ledger.SchoolViewSnoc | backend/server.js:302-308 | the school selection over one more row appends its join exactly when it is the caller's |
| Ledger.SchoolViewExact | backend/server.js:302-308 | a school sees exactly its own registrations, each with its exam's name |
| Ledger.SchoolSortNewestFirst | backend/server.js:307 | sorting by date gives the school rows newest first |
| Ledger.SearchViewSnoc | backend/server.js:75-97 | the search selection over one more school appends its public columns exactly when it matches |
| Ledger.SearchViewExact | backend/server.js:75-97 | the search returns exactly the public columns of the schools that match every truthy criterion |
| Ledger.SortByNameOrdered | backend/server.js:97 | sorting by name gives rows ordered by name |
| Ledger.ApplyUpdate | backend/server.js:367-372 | the update keeps the row count, rewrites the three columns on rows with that id, and leaves every other row as it was |
| Ledger.UpdateKeepsOtherColumns | backend/server.js:367-372 | no column other than `statut`, `salle_examen` and `centre_examen` changes, any status value is written, and unique ids stay unique |
| Ledger.UpdateMissingIdIsNoOp | backend/server.js:367-375 | an id no row has leaves the table unchanged |
| Ledger.UpdateIdempotent | backend/server.js:367-372 | applying the same update twice equals applying it once |
| Ledger.UpdateTouchesAtMostOne | backend/server.js:367-372 | with unique ids, at most one row changes |
| Stats.CountStatus | backend/server.js:394-396 | a status count never exceeds the number of rows |
| Stats.ActiveSchoolsBounds | backend/server.js:403 | the distinct school count is at most the row count, and at least one when there is a row |
| Stats.Stats | backend/server.js:391-411 | `total` and `total_etablissements` are the row count; each status field is the count of rows with exactly that status, and NULL exactly when no row has a status (so on an empty table); `etablissements_actifs` is the number of distinct school ids, at most `total` and positive when `total` is |
| Stats.CountsPartitionRows | backend/server.js:391-398 | the three status counts plus the rows with another or no status add up to the row count |
| Stats.StatsTotalIsSumIffKnown | backend/server.js:391-398 | on a non-empty table, `total` equals the sum of the three status fields exactly when every row's status is one of the three |
| Server.AppendFreshIds | backend/server.js:261-278 | appending rows numbered upward from the counter keeps registration ids unique and below the new counter |
| Server.ReportedSnoc | backend/server.js:254-282 | one loop step extends the reply entries exactly when the student is complete |
| Server.AppendReported | backend/server.js:277-281 | a reply entry for one more student carries the next id and number and that student |
| Server.BuildRows | backend/server.js:252-282 | the intake loop builds exactly the rows `NewRows` specifies, and one reply entry per row with its id, its number and the five modelled student fields as sent |
| Server.Store.Search | backend/server.js:70-106 | the reply is a permutation of the matching public rows, ordered by name |
| Server.Store.CreateInscriptions | backend/server.js:238-293 | 403 for a non-school caller and 400 `Données invalides` for a non-array `eleves` or a falsy `examen_id`, with nothing inserted; the id counter is also unchanged in those cases; otherwise the table gains exactly `NewRows`, the counter moves by that many, ids stay unique, and the message reports that count |
| Server.Store.SchoolInscriptions | backend/server.js:295-316 | 403 for a non-school caller; otherwise a permutation of the caller's rows, newest first |
| Server.Store.AdminInscriptions | backend/server.js:319-356 | 403 for a non-admin caller; otherwise a permutation of the filtered rows, newest first |
| Server.Store.UpdateInscription | backend/server.js:358-380 | 403 for a non-admin caller with the table unchanged; otherwise the table becomes `ApplyUpdate` of the old one, keys stay unique, and the reply is the success message even when no row matched |
| Server.Store.AdminStats | backend/server.js:383-417 | 403 for a non-admin caller; otherwise the report of the current registrations |
| Import.ImportRowShape | backend/import-etablissements.js:43-63 | each row has the trimmed code and name, the login `etab_` plus the trimmed code, the password `sisco2024`, a NULL village when the entry's is falsy, and the other columns copied |
| Import.ImportStep | backend/import-etablissements.js:41-73 | one more entry adds its row when its insert succeeds and one error otherwise |
| Import.ImportCounts | backend/import-etablissements.js:38-73 | every entry is attempted once: rows inserted plus errors equal the entries |
| Import.ImportedRows | backend/import-etablissements.js:41-66 | the k-th row has the k-th fresh id and is derived from an entry whose insert succeeded |
| Import.ImportedKeys | backend/import-etablissements.js:35-66 | the imported rows have distinct ids, all between the counter before and after the import |
| Import.ImportAllAccepted | backend/import-etablissements.js:41-66 | when no insert fails, the table holds one row per entry, in order |
| Import.ImportedCredentials | backend/import-etablissements.js:43-63 | every imported school's login is `etab_` plus its stored code, its password is the default, and its code is already trimmed |
| Import.InsertEntries | backend/import-etablissements.js:38-73 | the insert loop derives exactly the rows `Imported` specifies, `compteur` is their count, `erreurs` is the failure count, and together they equal the entry count |
| Import.ImportSchools | backend/import-etablissements.js:35-73 | after emptying the table, the table is exactly `Imported` of the entries, keys stay unique, the counters are those of the loop, and the id counter moves past the inserted rows by `compteur` |
| SchoolForm.WithField | frontend/src/pages/EspaceEtablissement.js:59 | the edited field takes the value and every other field keeps its own |
| SchoolForm.ValidStudentsInOrder | frontend/src/pages/EspaceEtablissement.js:86-88 | the students sent are exactly the valid lines, in their original order |
| SchoolForm.Without | frontend/src/pages/EspaceEtablissement.js:72 | `filter((_, i) => i !== index)` removes exactly the line at an index in range and nothing otherwise |
| SchoolForm.OutcomeShown | frontend/src/pages/EspaceEtablissement.js:105-116 | the message starts with the success mark exactly when the request succeeded, and then carries the server's message, its error, or the default error |
| SchoolForm.InscriptionForm.constructor | frontend/src/pages/EspaceEtablissement.js:8-14 | the form starts with no exam, one blank line, no message and not loading |
| SchoolForm.InscriptionForm.HandleEleveChange | frontend/src/pages/EspaceEtablissement.js:57-61 | only the given field of the given line changes |
| SchoolForm.InscriptionForm.AjouterEleve | frontend/src/pages/EspaceEtablissement.js:63-68 | one blank line is appended and the others are untouched |
| SchoolForm.InscriptionForm.SupprimerEleve | frontend/src/pages/EspaceEtablissement.js:70-75 | with more than one line, exactly the line at `index` goes; the last line is never removed, so the list is never empty |
| SchoolForm.InscriptionForm.HandleSubmit | frontend/src/pages/EspaceEtablissement.js:78-120 | no exam or no valid line: a message and no request; otherwise the valid lines are sent with the exam, a success resets the form, a failure keeps it, and loading ends off |
| AdminPanel.ModalRequest | frontend/src/pages/EspaceAdmin.js:69-80 | an update is sent exactly when room and centre are non-empty and a row is selected, and it carries that row's id, the pending status, and the room and centre exactly as typed |
| AdminPanel.RefusalRequest | frontend/src/pages/EspaceAdmin.js:105-114 | the refusal is sent exactly when a row is selected, and it is a status change to `refuse` with both fields emptied |
| AdminPanel.StatutBadge | frontend/src/pages/EspaceAdmin.js:126-133 | the three known statuses get their own class, any other gets `badge-en_attente`, and the label replaces the first `_` |
| AdminPanel.BadgeCaption | frontend/src/pages/EspaceAdmin.js:132 | only the first `_` becomes a space, whatever follows it |
| AdminPanel.PlainBadge | frontend/src/pages/EspaceAdmin.js:126-133 | a status without `_` is shown as it is, with its class or the waiting one |
| AdminPanel.ButtonsNeverBothDisabled | frontend/src/pages/EspaceAdmin.js:348-357 | no row has both buttons disabled, and a row that is neither accepted nor refused has both enabled |
| AdminPanel.Panel.constructor | frontend/src/pages/EspaceAdmin.js:13-22 | both modals start closed with nothing selected and empty fields |
| AdminPanel.Panel.OuvrirModal | frontend/src/pages/EspaceAdmin.js:52-59 | the modal opens on the row with the target status, prefilled with the row's room and centre or `''` |
| AdminPanel.Panel.EditSalle | frontend/src/pages/EspaceAdmin.js:160-161 | typing sets the room field |
| AdminPanel.Panel.EditCentre | frontend/src/pages/EspaceAdmin.js:172-173 | typing sets the centre field |
| AdminPanel.Panel.FermerModal | frontend/src/pages/EspaceAdmin.js:62-66 | the modal closes, forgets the row and empties both fields |
| AdminPanel.Panel.ValiderModal | frontend/src/pages/EspaceAdmin.js:69-90 | sends `ModalRequest` of the state; a successful update closes the modal, otherwise the state is unchanged |
| AdminPanel.Panel.OuvrirDeleteModal | frontend/src/pages/EspaceAdmin.js:93-96 | the confirmation opens on the selected row |
| AdminPanel.Panel.FermerDeleteModal | frontend/src/pages/EspaceAdmin.js:99-102 | the confirmation closes and forgets the row |
| AdminPanel.Panel.SupprimerInscription | frontend/src/pages/EspaceAdmin.js:105-124 | sends `RefusalRequest` of the selection; a successful update closes the confirmation, otherwise the state is unchanged |
| Workflow.FormValidIsComplete | frontend/src/pages/EspaceEtablissement.js:86-88 | a line the form lets through passes the intake's completeness test |
| Workflow.WhitespaceNameBlockedByForm | backend/server.js:255 | a whitespace-only name passes the intake's test but not the form's |
| Workflow.AcceptedAllComplete | backend/server.js:254-257 | when every student is complete, the intake keeps them all |
| Workflow.FormLineStored | backend/server.js:261-275 | the row built from a line the form lets through has non-empty trimmed names and the other fields as typed, trimmed |
| Workflow.SentLinesValid | frontend/src/pages/EspaceEtablissement.js:86-88 | every line the form sends passes its own filter |
| Workflow.SubmittedLinesAllStored | frontend/src/pages/EspaceEtablissement.js:86-103 | a submitted form becomes one row per line sent, in order, with non-empty trimmed names and the other fields trimmed as typed |
| Workflow.ModalDecisionStored | frontend/src/pages/EspaceAdmin.js:69-80 | after a confirmed modal the row has the chosen status and the non-empty room and centre typed in the modal, and its accept button is disabled exactly when that status is `accepte` |
| Workflow.RefusalKeepsRows | frontend/src/pages/EspaceAdmin.js:105-114 | a refusal deletes nothing, keeps the total, disables the refused row's refuse button and enables its accept button |
| Workflow.RefusalCountStep | backend/server.js:394-396 | the refused count over the updated table grows by the last row exactly when that row is refused after the update |
| Workflow.RefusalNeverLowersCount | backend/server.js:394-396 | refusing never lowers the refused count |
| Workflow.RefusalRaisesCount | backend/server.js:394-396 | refusing a row that was not refused yet raises the refused count |
| Workflow.ImportedSchoolLogsIn | backend/import-etablissements.js:45-63 | every imported school logs in with `etab_<code>` and `sisco2024` and gets a school session for a row with that login |

## Left out

- JWT signing and verification are cryptography. A login returns the claims it would sign, token expiry is not modelled, and verification is a parameter `verify` that yields a payload or fails.
- Database access, connections, `/api/test-db` and every 500 reply are left out. The in-memory store never fails.
- `GET /api/etablissements` and `GET /api/examens` only select and sort whole tables. They are not modelled.
- JSON values of the wrong type are not modelled. Fields are strings or absent, except the ids described under the representation notes. A `null`, absent or empty `nom` is skipped by the completeness test before any `trim()`. What would throw is a truthy `nom` or `prenom` that is not a string, a `lieu_naissance` or `classe` that is neither a string nor null, or a `null` element of `eleves`.
- Server.Store.CreateInscriptions: the body's `examen_id` is the form's string (it starts as `''`). Its JavaScript truthiness, under which `"0"` is truthy and passes the 400 check, and its conversion to a number by MySQL are not modelled: the model takes the id as an `Option<int>` and treats `0` as falsy, so it answers 400 where the source would go on to insert.
- Server.Store.CreateInscriptions: the rows of the students before a throwing one are already inserted when the intake answers 500. That partial insertion is not modelled, because the model's inputs cannot throw.
- SQL `LIKE` wildcards inside the query text (`%`, `_`), collation and case-insensitivity are not modelled. The search uses plain substring containment and `ORDER BY nom` uses code-point order. The equality lookups `WHERE login = ?`, `WHERE username = ?` and the `i.statut = ?` filter compare under the column's collation too, which by default ignores case; the model compares exactly, so `Auth.SchoolLoginSound` and `Auth.AdminLoginSound` state a stricter match than the database makes.
- The string-to-number coercion of `etablissement_id` from the query string is not modelled. The filter is `Option<int>`, and `None` stands for an absent or empty parameter.
- Server.Store.UpdateInscription: a body field that is absent, rather than `null`, is bound as `undefined`, which the MySQL driver refuses, so the route answers 500 and updates nothing. The model does not tell absent from `null`: it writes NULL and replies with the success message.
- Server.Store.UpdateInscription: the `:id` route parameter is a string that MySQL converts to a number (`5abc` selects row 5). That conversion is not modelled; the id is an `int`.
- Server.BuildRows: a reply entry is `{id, numero_inscription, ...eleve}` with the spread last, so a student object carrying its own `id` or `numero_inscription` key overrides the inserted id or the generated number in the reply, and every other key the client sent is echoed back. Students have exactly the five modelled fields, so the model always reports the row's id and number.
- Server.Store.CreateInscriptions: each request is one atomic step. The source awaits each INSERT in its loop, so other requests may insert between them; one batch's ids are then not necessarily consecutive and the id counter can move by more than the batch during one call. The consecutive ids and the counter moving by exactly the batch size hold only without that interleaving.
- Server.Store.CreateInscriptions: one `now` stands for the `date_inscription` of the whole batch, while each INSERT gets its own `CURRENT_TIMESTAMP`.
- Server.Store.CreateInscriptions: `numero_inscription` comes from `Date.now()` and `Math.random()`. It is a parameter `numero`, and its uniqueness is not claimed because the code does not ensure it.
- Server.Store.CreateInscriptions: the column defaults `statut` and `date_inscription` come from a schema that is not part of this model. They are parameters. The defaults of `salle_examen` and `centre_examen`, which the INSERT does not name, are taken to be NULL.
- Import.ImportSchools: which inserts the database refuses is an oracle `rejected`. A refused insert is assumed not to consume an id, so the ids of inserted rows are consecutive. In PostgreSQL the sequence behind a SERIAL column is not rolled back when an INSERT fails, so with refused inserts the real ids skip values; the ids stated by `Import.ImportedRows`, `Import.ImportedKeys` and `Import.ImportSchools` hold only when no insert is refused.
- Import.ImportSchools: the rows are derived by `InsertEntries` and then stored together. The script is the only writer and nothing reads the table between inserts, so the final table is the same.
- Import.ImportSchools: connection handling, the final `COUNT(*)` check, and the progress log every ten rows are output only.
- SchoolForm.InscriptionForm.HandleEleveChange: the source writes into the student object shared with the previous state. The model replaces the line by value, so that aliasing is not captured.
- SchoolForm.InscriptionForm.HandleSubmit: the request's outcome is a parameter. The awaited call and React's render scheduling are not modelled. The reload of the listing after a success is not modelled.
- The page loaders `chargerExamens`, `chargerInscriptions` and `chargerStats` are not modelled. They only copy a reply into state.
- AdminPanel.StatutBadge: the lookup `badges[statut]` would also find inherited object keys such as `constructor`. The model treats only the three listed statuses as known. A `null` status, which makes `statut.replace` throw, is not modelled.
- AdminPanel.Panel.ValiderModal: with no selected row the source throws inside its `try` and shows the error alert. The model sends nothing and leaves the state unchanged, which is the same visible outcome.
- `alert`, `console`, JSX, CSS and date formatting are left out.
- The frontend's route paths differ from the server's, for example `/api/etablissements/inscriptions` against `/api/inscriptions`. Routing is not modelled; the frontend's calls are taken to reach the handlers they are named after.
- frontend/src/pages/LoginAdmin.js and frontend/src/pages/LoginEtablissement.js are not part of this model. Their only check duplicates the server's 400 check.
- The axios interceptor that clears storage on a 401 or 403 is not modelled. Only its `Bearer <token>` header format is used, in `Auth.BearerRoundTrip`.
- The server talks to MySQL and the import script to PostgreSQL. Both are modelled as the same tables.
- Stats.Stats: the statistics follow the code rather than the design claim that `total` is the sum of the three status counts for any table. That sum equals `total` only when every status is one of the three, as `Stats.StatsTotalIsSumIffKnown` states.
