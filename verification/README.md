# Accounts form and store, modelled in Dafny

This project models the client-side core of a small account manager. An
account has a type (`local` or `ldap`), a login, a nullable password, and an
ordered list of free-text labels. The page shows one editable row per
account. Each row is checked by a schema before it is sent to a REST backend.
A store keeps the local list of accounts and updates it when a request
succeeds.

The model is written with pure functions over immutable records:

- `JsText`: the three JavaScript string operations the core uses. These are
  `trim` (with the full ECMAScript whitespace set), `split` on one character,
  and `join`.
- `AccountTypes`: `AccountType`, `Label`, `Account`, and an `Option` for
  optional and nullable fields.
- `AccountSchema`: the editable `Row`, and the schema as the set of fields it
  reports an issue on (`Issues`). A row is `Valid` when that set is empty.
- `LabelCodec`: parsing the `;`-separated label edit string, and joining a
  label list back into one.
- `RowCodec`: turning a row into an account (before saving), and an account
  into a row (when loading, and after a create).
- `AccountStore`: `load`, `add`, `update` and `removeAccount`. Each one takes
  the backend's answer (`Ok(data)` or `Err`) as a parameter. Each one records
  the request it made and the notice it showed, either an error report or a
  success toast, tagged with the action.
- `AccountForm`: the page state (the store plus the rows, password
  visibility, selected row and confirm flag) and the six handlers. Each
  handler is one atomic step. It takes a `Backend` record holding the answer
  to each kind of request.

Where the code and a plain reading of the design differ, the model follows the code:

- A row counts as "having an id" by JavaScript truthiness, so an empty-string
  id is treated like no id, both on blur and on confirm.
- After a create, the row is overwritten only when the returned account has a
  `labels` field. It is not overwritten on every successful create.
- `update` replaces only the first entry with a matching id, because
  `findIndex` is used. `removeAccount` removes every matching entry.
- An ldap row's password is still limited to 100 characters by the schema,
  even though it is dropped before saving.
- `loadAccounts` rebuilds the rows from the store's list even when the load
  fails. Unsaved rows are discarded either way.
- Password visibility is kept per row index. Removing a row does not
  renumber the flags, so the row that moves into its place shows or hides
  its password as the removed row did.

The schema reports its cross-field password issue whenever the object part
does not abort. In this model the only aborting failure is an unknown type
string, and the cross-field rule cannot fire in that case. So `Issues` is the
plain union of the five checks.

## Model

| member | source | states |
|---|---|---|
| AccountTypes.ParseType | src/types/accounts.ts:1 | exactly the two strings "local" and "ldap" name an account type, and each reads back to the type written |
| AccountTypes.TypeNameRoundTrip | src/types/accounts.ts:1 | every account type survives being written into a row and read back |
| JsText.TrimStartSuffix | src/composables/useAccounts.ts:18 | trimming the start keeps the longest suffix that does not start with whitespace; everything dropped is whitespace |
| JsText.TrimEndPrefix | src/composables/useAccounts.ts:18 | trimming the end keeps the longest prefix that does not end with whitespace; everything dropped is whitespace |
| JsText.TrimEmptyIffBlank | src/composables/useAccounts.ts:18 | `trim()` gives "" exactly when every character is whitespace |
| JsText.Trim | src/composables/useAccounts.ts:18 | `trim()` never lengthens a string, and what it returns neither starts nor ends with whitespace |
| JsText.Split | src/composables/useAccounts.ts:48 | `split(';')` always yields at least one piece, even for "" |
| JsText.SplitPiecesFree | src/composables/useAccounts.ts:48 | no piece of a split holds the separator |
| JsText.JoinSplit | src/composables/useAccounts.ts:48 | joining the pieces of a split with the separator restores the input |
| JsText.SplitWithoutSep | src/composables/useAccounts.ts:48 | a string without the separator splits into itself alone |
| JsText.SplitAroundStep | src/composables/useAccounts.ts:48 | if splitting distributes over the separator for the tail of `a`, it does for `a` |
| JsText.SplitAround | src/composables/useAccounts.ts:48 | splitting `a;b` gives the pieces of `a` followed by the pieces of `b` |
| JsText.SplitJoin | src/composables/useAccounts.ts:46-60 | splitting the join of a non-empty list of separator-free pieces gives back the list |
| JsText.JoinLength | src/composables/useAccounts.ts:60 | `join(';')` of no parts is ""; otherwise its length is the parts' total length plus one separator between each two neighbours |
| AccountSchema.Issues | src/composables/useAccounts.ts:9-25 | for each field, the schema reports it exactly when its limit is broken: labels longer than 50, a type other than local/ldap, a login outside 1..100, a password longer than 100 or missing/blank on a local row; the id is never reported |
| AccountSchema.NoIssuesIff | src/composables/useAccounts.ts:11-24 | the schema reports no issue iff all field limits hold and a local row has a password with a non-whitespace character |
| AccountSchema.Valid | src/composables/useAccounts.ts:71-72 | `safeParse` succeeds iff all field limits hold and a local row has a password with a non-whitespace character |
| AccountSchema.PasswordRule | src/composables/useAccounts.ts:17-24 | with the field limits met, a local row is rejected iff its password is null or blank, and an ldap row is always accepted |
| LabelCodec.JoinLabels | src/composables/useAccounts.ts:60 | no labels give ""; the `;`-pieces of the edit string of editable labels are exactly their texts, in order |
| LabelCodec.SplitTexts | src/composables/useAccounts.ts:48-60 | splitting the `;`-join of a non-empty list of editable labels gives back their texts |
| LabelCodec.Kept | src/composables/useAccounts.ts:50 | a segment survives the filter exactly when it is not all whitespace |
| LabelCodec.KeepNonBlank | src/composables/useAccounts.ts:49-50 | the kept labels are no more than the segments, each is one of the segments and none is blank |
| LabelCodec.KeepNonBlankAppend | src/composables/useAccounts.ts:49-50 | the filter keeps order: filtering a concatenation is concatenating the filtered parts |
| LabelCodec.KeepAllNonBlank | src/composables/useAccounts.ts:49-50 | when no segment is blank, every segment is kept, in order and untrimmed |
| LabelCodec.ParseLabels | src/composables/useAccounts.ts:46-50 | an absent string gives no labels; every label is a `;`-segment of the input, is non-blank and holds no `;` |
| LabelCodec.ParseOneSegment | src/composables/useAccounts.ts:46-50 | a separator-free string parses to no labels when blank, otherwise to itself as one untrimmed label |
| LabelCodec.ParseAround | src/composables/useAccounts.ts:46-50 | the labels of `a;b` are the labels of `a` followed by those of `b` |
| LabelCodec.TextsInjective | src/composables/useAccounts.ts:60 | two label lists with the same texts are equal, since a label is only its text |
| LabelCodec.ParseJoinRoundTrip | src/composables/useAccounts.ts:46-60 | a list of non-blank, separator-free labels, joined with `;` and parsed, gives back the list; the empty list goes through "" |
| LabelCodec.ParseIdempotent | src/composables/useAccounts.ts:46-60 | re-joining parsed labels and parsing again changes nothing |
| LabelCodec.JoinKeptNoLonger | src/composables/useAccounts.ts:46-60 | dropping blank segments never lengthens the joined string |
| LabelCodec.NormalisedNoLonger | src/composables/useAccounts.ts:46-60 | the normalised edit string is never longer than the original |
| RowCodec.ToAccount | src/composables/useAccounts.ts:74-78 | id, type and login are copied; the password is null iff the type is ldap or it was null, and is unchanged for local; the labels are `parseLabels` of the edit string, hence editable |
| RowCodec.ToRow | src/composables/useAccounts.ts:57-61 | id, login and password are copied, the type is written as its wire string, and the labels become the `;`-join of their texts, "" when absent |
| RowCodec.AccountRowRoundTrip | src/composables/useAccounts.ts:57-78 | loading an account into a row and saving it gives the account back iff its labels are present and editable and an ldap account has no password |
| RowCodec.RowAccountRow | src/composables/useAccounts.ts:57-78 | saving and reloading a row only normalises its labels and nulls an ldap password |
| RowCodec.SaveIdempotent | src/composables/useAccounts.ts:57-78 | saving a reloaded saved row gives the same account |
| RowCodec.SavedRowStaysValid | src/composables/useAccounts.ts:9-78 | a row the schema accepted is still accepted after it is saved and loaded back |
| AccountStore.Load | src/stores/accounts.ts:16-26 | on success the list is the server's list; on failure it is unchanged and one load error is reported; the loading flag is down afterwards |
| AccountStore.Add | src/stores/accounts.ts:28-38 | on success the server's account is appended after the unchanged old entries and returned, with one success notice; on failure the list is unchanged, null is returned and one error is reported |
| AccountStore.FindIndex | src/stores/accounts.ts:43 | the first index whose id matches, or -1 exactly when no entry matches |
| AccountStore.Update | src/stores/accounts.ts:40-49 | on success only the first entry with the account's id is replaced and the length is kept; on failure the list is unchanged and one error is reported |
| AccountStore.WithoutId | src/stores/accounts.ts:54 | no remaining entry has the id, every remaining entry was there before, and every entry with another id remains |
| AccountStore.RemoveAccount | src/stores/accounts.ts:51-59 | on success the list holds exactly the old entries without the id; on failure it is unchanged and one error is reported |
| AccountStore.WithoutIdAppend | src/stores/accounts.ts:54 | removal keeps the relative order of the remaining entries |
| AccountStore.WithoutAbsentId | src/stores/accounts.ts:54 | removing an id no entry has leaves the list unchanged |
| AccountStore.RemoveIdempotent | src/stores/accounts.ts:51-59 | removing an id twice leaves the same list as removing it once |
| AccountStore.AddThenRemove | src/stores/accounts.ts:28-59 | adding an account with a fresh server id, then removing that id, restores the list |
| AccountStore.UpdateKeepsIds | src/stores/accounts.ts:40-49 | an update keeps every id in place, and the account is in the list afterwards iff some entry had its id |
| AccountStore.UpdateIdempotent | src/stores/accounts.ts:40-49 | sending the same update twice gives the list one update gives |
| AccountForm.SpliceOne | src/composables/useAccounts.ts:105 | an in-range index removes exactly that row, and an index past the end removes nothing |
| AccountForm.LoadAccounts | src/composables/useAccounts.ts:52-65 | rows are rebuilt one per store account in order, with id, login and password copied, the type written out and the labels joined with `;` ("" when absent); the store's list is the server's on success and the old one on failure |
| AccountForm.HandleBlur | src/composables/useAccounts.ts:67-91 | a missing or rejected row changes nothing; an accepted row with a truthy id sends one update and leaves the rows alone; otherwise it sends one create, and the row becomes the created account only when one with labels came back; no other row changes |
| AccountForm.HandleAdd | src/composables/useAccounts.ts:93-95 | exactly one row {local, "", "", ""} without an id is appended, and nothing else changes |
| AccountForm.HandleRemove | src/composables/useAccounts.ts:97-100 | only the selected index and the open prompt change |
| AccountForm.HandleConfirm | src/composables/useAccounts.ts:102-107 | the selected row is removed and the prompt closed; the store deletes that row's id only when the row has a truthy id, and is untouched otherwise |
| AccountForm.TogglePasswordVisibility | src/composables/useAccounts.ts:109-111 | only the given row's visibility flips |
| AccountForm.ToggleTwice | src/composables/useAccounts.ts:109-111 | toggling a row twice restores every visibility |
| AccountForm.ConfirmKeepsVisibilityByIndex | src/composables/useAccounts.ts:102-111 | removing a row leaves every visibility flag at its index, so the row moving into the removed row's place inherits its flag |
| AccountForm.BlurRequestsOnlyValidRows | src/composables/useAccounts.ts:67-91 | a blur sends exactly one request when the row exists and is accepted, and none otherwise |
| AccountForm.BlurOfBlankRowSendsNothing | src/composables/useAccounts.ts:67-95 | blurring a freshly added row sends nothing and changes nothing, because its empty login is rejected |
| AccountForm.BlurCreatesIffNoId | src/composables/useAccounts.ts:80-83 | an accepted row is sent as an update iff its id is truthy, otherwise as a create; a row whose id is "" is created |
| AccountForm.SavedRowIsNeverCreated | src/composables/useAccounts.ts:80-81 | a blur of a row with a truthy id sends no create |
| AccountForm.CreateThenUpdate | src/composables/useAccounts.ts:80-89 | once a create returns an account with an id and labels, the row takes that id and the store holds the account; the next accepted blur of the row sends an update |
| AccountForm.RemoveThenConfirm | src/composables/useAccounts.ts:97-107 | remove-then-confirm drops exactly that row whatever the backend answers; the store loses the id only when the row had one and the delete succeeded |
| AccountForm.LoadedRowsSaveBack | src/composables/useAccounts.ts:52-78 | after a load of representable accounts, saving any row gives back the account it came from |
| AccountForm.InitialTrace | src/composables/useAccounts.ts:38-44 | the page starts with no accounts or rows, not loading, every password masked and the prompt closed; adding a row there and blurring it sends nothing, and a failed first load leaves the form empty with one load error |
| AccountForm.LoadExample | src/composables/useAccounts.ts:52-65 | loading a server list holding one local account (id "1", login "bob", password "x", label "admin") gives exactly one row, with labels edit string "admin" |

## Left out

- The HTTP client (`src/api/accounts.ts`) is not modelled. Each request appears only as an entry in the store's request log, and its answer as a `Reply` parameter. The update and delete response bodies are unused, as in the source.
- Asynchrony is not modelled. Each handler is one atomic step, so races between overlapping blur or confirm handlers are outside the model. The loading flag is observable only between a request and its reply, so the model only states that it is down afterwards.
- Lengths count Unicode scalar values, not UTF-16 code units. The two differ for characters outside the Basic Multilingual Plane.
- The form and store libraries (vee-validate, Zod, Pinia, Vue reactivity) are replaced by explicit records. Row removal follows `Array.prototype.splice(index, 1)`, which is what the field-array removal performs.
- Error message texts, toast texts and console texts are left out. A notice records only its kind and action.
- A server account whose `labels` is `null` is not modelled. Only an absent list is defaulted to empty, so `null` would make the label join throw. An absent (`undefined`) password is not modelled either. The schema rejects it, while it accepts `null`. Both `null` and absent map to `None` here.
- Row fields of a non-string JavaScript type are not modelled, and neither are extra properties carried along by object spread.
- AccountForm.HandleConfirm: its contract says nothing about a negative selected index. `handleRemove` only ever receives a row index from the rendered list, which is never negative.
