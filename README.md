# Account store model

A Dafny model of the account-list store of a small browser form for managing
authentication account records (`src/stores/accounts.ts`). The store keeps an
in-memory sequence of `Account` records (id, labels, account type `LDAP` or
`'Локальная'`, login, password, the derived `isValid` and `errors`, and the
UI flag `editMode`). It offers:

- add / delete / update by id;
- the validation rule deriving `errors.login`, `errors.password` and `isValid`;
- the `;`-separated label parser and formatter;
- saving to and loading from the browser's local storage.

Files:

- `wrappers.dfy`: `Option`, where `None` stands for JavaScript's `null` / `undefined`.
- `text.dfy`: the JavaScript string built-ins the store uses.
  - `String.prototype.trim`, with ECMAScript's whitespace and line-terminator set.
  - `split` with a one-character separator.
  - `join`.
- `account_model.dfy`: the record types of `src/types/index.ts`. The type
  literal `'Локальная'` is the constructor `Local`.
- `accounts.dfy`: the store.
  - Pure functions specify each operation on a sequence of records: `Validate`, `ParseLabels`,
    `LabelsToString`, `IndexOf`, `Removed`, `Updated` and `Normalize`.
  - Lemmas state what the source promises about them.
  - The class `AccountsStore` has a `seq<Account>` field.
    - `AddAccount` ensures the appended record field by field.
    - `DeleteAccount` and `UpdateAccount` are proved equal to `Removed` and
      `Updated`.
    - `LoadFromStorage`, when the stored item is an array, is proved equal to
      `Normalize` of it.
    - `SaveToStorage` changes only the storage object.
  - Local storage is a separate `BrowserStorage` object. It holds the
    `'accounts'` item as the `Stored` datatype: no entry, unreadable, not an
    array, or an array of records.

Two invariants are kept by add, delete and update:

- `IdsUnique`: no two records share an id.
- `AllConsistent`: every record is either freshly validated or an untouched new record.
  - A new record has cleared error flags and `isValid = false`.
  - Validation would set both error flags on it, but would agree on `isValid`.
  - So `isValid` is never stale (`ConsistentValidity`).

Notes on what `src/stores/accounts.ts` does, which the model follows:

- `loadFromStorage` with no `'accounts'` item leaves the collection as it
  was; it does not empty it. The same holds for a stored value that is not an array.
- A record whose login is not a string makes `validateAccount` throw inside
  the `try`. The whole collection then becomes empty. The model folds this into
  `Unreadable`.
- `validateAccount` ignores an LDAP account's password; nothing requires it to be absent.
- `loadFromStorage` does not check id uniqueness. `LoadFromStorage`
  therefore promises `IdsUnique` only when the stored records have unique ids.
  A collection the store itself built has unique ids: the constructor starts
  empty, and `AddAccount`, `DeleteAccount` and `UpdateAccount` each keep
  `IdsUnique`. `SaveToStorage` stores that collection unchanged.

## Model

| member | source | states |
|---|---|---|
| Text.TrimSlice | src/stores/accounts.ts:62 | `trim` returns one contiguous slice of the input, with only whitespace before it and after it |
| Text.Trim | src/stores/accounts.ts:62 | `trim` leaves a string with whitespace at neither end, no longer than the input, and empty exactly when the input is all whitespace |
| Text.TrimStartSuffix | src/stores/accounts.ts:62 | the leading-whitespace pass keeps a suffix and drops only whitespace |
| Text.TrimEndPrefix | src/stores/accounts.ts:62 | the trailing-whitespace pass keeps a prefix and drops only whitespace |
| Text.TrimTrimmed | src/stores/accounts.ts:62 | a string already free of edge whitespace is left unchanged by `trim` |
| Text.TrimIdempotent | src/stores/accounts.ts:62 | `trim` is idempotent |
| Text.TrimKeepsAbsent | src/stores/accounts.ts:62 | trimming introduces no character, so a piece without `;` stays without `;` |
| Text.Split | src/stores/accounts.ts:61 | `split(';')` yields at least one piece, no piece holds the separator, and joining the pieces with the separator gives the input back |
| Text.SplitAround | src/stores/accounts.ts:61 | splitting `a + ";" + b` gives the pieces of `a` followed by the pieces of `b` |
| Text.SplitWithoutSeparator | src/stores/accounts.ts:61 | a string without the separator splits into itself alone |
| Text.SplitJoin | src/stores/accounts.ts:68 | splitting the `join` of one or more separator-free parts recovers exactly those parts |
| Text.JoinWith | src/stores/accounts.ts:68 | the definition of `join` with one separator between neighbours; characterised as the inverse of `Split` on separator-free parts (`Text.SplitJoin`, and `Text.Split`'s own ensures) and by `Text.JoinWithStart`/`Text.JoinWithEnd` |
| Text.JoinWithStart | src/stores/accounts.ts:68 | a join starts with its first part |
| Text.JoinWithEnd | src/stores/accounts.ts:68 | a join ends with its last part |
| Accounts.Validate | src/stores/accounts.ts:45-55 | the login error holds iff the login is all whitespace; the password error holds iff the type is `'Локальная'` and the password is null or all whitespace; `isValid` is the conjunction of the two negations; no other field changes |
| Accounts.LocalValidity | src/stores/accounts.ts:47-52 | a local account is valid iff its login and its (non-null) password each contain a non-whitespace character |
| Accounts.LdapIgnoresPassword | src/stores/accounts.ts:48 | an LDAP account never has a password error, is valid iff its login has text, and changing its password changes nothing validation computes |
| Accounts.ValidateIgnoresDerived | src/stores/accounts.ts:45-52 | the outcome depends only on login, password and type, never on the stored flags |
| Accounts.ValidateIdempotent | src/stores/accounts.ts:45-55 | validating twice is the same as validating once |
| Accounts.CleanSegments | src/stores/accounts.ts:60-64 | the trim/filter/map chain yields at most one label per piece, each non-empty and trimmed, and `;`-free when the pieces are |
| Accounts.ParseLabels | src/stores/accounts.ts:57-65 | blank input gives no labels; every label is non-empty, trimmed and free of `;`; there are no more labels than pieces |
| Accounts.ParsedLabelsTrimmed | src/stores/accounts.ts:62 | every parsed label text is a fixed point of `trim` |
| Accounts.BlankGuardRedundant | src/stores/accounts.ts:58-64 | the early return for blank input agrees with running the pipeline on it |
| Accounts.ParseLabelsPiece | src/stores/accounts.ts:57-65 | a `;`-free input gives its trimmed text as the single label, or no label if blank |
| Accounts.ParseLabelsAround | src/stores/accounts.ts:57-65 | labels keep input order: parsing `a + ";" + b` gives the labels of `a` followed by those of `b` |
| Accounts.Texts | src/stores/accounts.ts:68 | the definition of `labels.map(label => label.text)`: same length, each text at the position of its label |
| Accounts.LabelsToString | src/stores/accounts.ts:67-69 | no labels give the empty string; otherwise the string starts with the first label's text and ends with the last label's text; for clean labels it neither starts nor ends with `;` |
| Accounts.LabelsRoundTrip | src/stores/accounts.ts:57-69 | parsing the formatted string of clean labels gives back exactly those labels |
| Accounts.ParsedLabelsStable | src/stores/accounts.ts:57-69 | formatting then re-parsing parser output changes nothing |
| Accounts.IndexOf | src/stores/accounts.ts:31 | `findIndex` by id is -1 iff the id is absent, and otherwise the first position holding it |
| Accounts.FindIndex | src/stores/accounts.ts:31 | the linear search returns exactly that first position, or -1 |
| Accounts.Assign | src/stores/accounts.ts:40 | each editable field present in the update takes the update's value, and each absent one keeps its old value; the id and the derived flags are kept; an empty update changes nothing |
| Accounts.ConsistentValidity | src/stores/accounts.ts:18-23 | in every reachable record `isValid` agrees with the validation rule, and a valid record shows no errors |
| Accounts.NewAccount | src/stores/accounts.ts:12-24 | the definition of the literal record `addAccount` appends; `Accounts.AddKeepsIdsUnique`, `Accounts.AddKeepsConsistent` and `Accounts.ConsistentValidity` state what it preserves |
| Accounts.AddKeepsIdsUnique | src/stores/accounts.ts:11-27 | appending a new record under a fresh id keeps ids unique |
| Accounts.AddKeepsConsistent | src/stores/accounts.ts:11-27 | appending the blank new record keeps every record consistent |
| Accounts.Removed | src/stores/accounts.ts:30-35 | the definition of `splice(findIndex(...), 1)` on values; characterised by `Accounts.RemovedAbsent`, `Accounts.RemovedPresent` and `Accounts.RemovedKeepsOtherIds` |
| Accounts.RemovedAbsent | src/stores/accounts.ts:30-35 | deleting an absent id leaves the collection unchanged |
| Accounts.RemovedPresent | src/stores/accounts.ts:30-35 | deleting a present id removes exactly the first record holding it; the others keep their relative order |
| Accounts.RemovedKeepsIdsUnique | src/stores/accounts.ts:30-35 | deletion keeps ids unique |
| Accounts.RemovedDropsId | src/stores/accounts.ts:30-35 | with unique ids, no record with the deleted id remains |
| Accounts.RemovedKeepsOtherIds | src/stores/accounts.ts:30-35 | every other id is present after deletion iff it was before |
| Accounts.RemovedKeepsConsistent | src/stores/accounts.ts:30-35 | deletion keeps every record consistent |
| Accounts.Updated | src/stores/accounts.ts:37-43 | the definition of find, `Object.assign` and `validateAccount` on values; characterised by `Accounts.UpdatedShape` with `Accounts.Assign`'s and `Accounts.Validate`'s ensures |
| Accounts.UpdatedShape | src/stores/accounts.ts:37-43 | updating an absent id changes nothing; otherwise only the first matching record changes; it becomes the validated assignment; all ids stay in place |
| Accounts.UpdatedKeepsIdsUnique | src/stores/accounts.ts:37-43 | updating keeps ids unique |
| Accounts.UpdatedKeepsConsistent | src/stores/accounts.ts:37-43 | updating keeps every record consistent |
| Accounts.Reset | src/stores/accounts.ts:85-90 | the definition of the spread that turns edit mode off and clears `isValid` and `errors`; `Accounts.Rehydrate` states the result once it is validated |
| Accounts.Rehydrate | src/stores/accounts.ts:85-91 | a loaded record keeps id, labels, type, login and password, has `editMode` off, and gets errors and `isValid` from validation of its fields |
| Accounts.Normalize | src/stores/accounts.ts:85-91 | the definition of the load-time map; characterised by `Accounts.NormalizeKeeps`, `Accounts.NormalizeIgnoresDerived` and `Accounts.NormalizeIdempotent`, and computed by `Accounts.LoadRecords` |
| Accounts.NormalizeKeeps | src/stores/accounts.ts:84-92 | loading keeps length, order, ids, labels, type, login and password; every record has edit mode off and is validated; unique stored ids stay unique |
| Accounts.NormalizeIgnoresDerived | src/stores/accounts.ts:85-91 | stored `isValid`, `errors` and `editMode` have no effect on what is loaded |
| Accounts.NormalizeIdempotent | src/stores/accounts.ts:85-91 | loading an already loaded collection changes nothing |
| Accounts.LoadRecords | src/stores/accounts.ts:85-91 | the map-then-`forEach` loop produces exactly the normalised collection |
| Accounts.AccountsStore.constructor | src/stores/accounts.ts:7 | the store starts with an empty collection |
| Accounts.AccountsStore.AccountsCount | src/stores/accounts.ts:9 | the count is the number of records |
| Accounts.AccountsStore.AddAccount | src/stores/accounts.ts:11-28 | one record is appended after the unchanged old ones: the given fresh id, no labels, type `'Локальная'`, empty login and password, invalid, no errors, in edit mode; the id is returned; uniqueness and consistency are kept |
| Accounts.AccountsStore.DeleteAccount | src/stores/accounts.ts:30-35 | the collection becomes `Removed(old, id)`: unchanged for an absent id, one shorter otherwise; with unique ids the id is gone; uniqueness and consistency are kept |
| Accounts.AccountsStore.UpdateAccount | src/stores/accounts.ts:37-43 | the collection becomes `Updated(old, id, updates)`: unchanged for an absent id; uniqueness and consistency are kept |
| Accounts.AccountsStore.SaveToStorage | src/stores/accounts.ts:71-77 | a successful write stores the whole collection; a failed write leaves the stored item as it was; the collection is never touched |
| Accounts.AccountsStore.LoadFromStorage | src/stores/accounts.ts:79-98 | a missing item or a non-array leaves the collection unchanged; an unreadable item empties it; an array replaces it with its normalised records; consistency is kept in every case, and stored records with unique ids give unique ids |

## Left out

- The Vue `watch(..., { deep: true })` that saves after every change is not modelled. Pinia's `defineStore` and `ref`/`computed` reactivity are not modelled either. `SaveToStorage` is a separate method the caller invokes.
- `uuidv4()` is a foreign random source. `AddAccount` takes the generated id as a parameter and requires it to be absent from the collection.
- `JSON.stringify`/`JSON.parse` and `localStorage.setItem`/`getItem` are not modelled as text. The stored item is the `Stored` datatype, and a successful save stores the records themselves.
- Where `setItem` throws, the failure is the `writeSucceeds` parameter of `SaveToStorage`.
- `console.error` logging is not modelled.
- Records of the wrong JSON shape are not modelled field by field. `validateAccount` throws, and the `try` empties the collection, only for a non-string `login` or for a truthy non-string `password` on a `'Локальная'` record. That outcome is the `Unreadable` case.
- Other wrong-shape records load without a throw: a `type` outside the two literals (validated like LDAP, with no password check), a missing `id` or `labels`, a non-string password on an LDAP record, or a falsy non-string password (`0`, `false`) on a `'Локальная'` record. For the last case, `!account.password` is true, `.trim()` is never reached, and the record loads with `errors.password` set. They are outside the model, because `AccountType` has only the two literals and every field of `Account` is always present.
- Accounts.AccountUpdate: `Object.assign` with an arbitrary `Partial<Account>` is restricted to the editable fields (labels, type, login, password, editMode). An update carrying `isValid` or `errors` has no lasting effect in the source, because `updateAccount` calls `validateAccount` right after the assign and that call overwrites both. An update carrying `id` could duplicate an id, and the model does not allow it.
- Accounts.AccountUpdate: a key present with the value `undefined` (as in `updateAccount(id, { login: undefined })`, which `Partial<Account>` allows) is not modelled; `None` means only that the key is absent. In the source, `Object.assign` copies that `undefined` onto the record. With `login: undefined`, `validateAccount` then throws on `login.trim()`, the exception leaves `updateAccount`, and the record keeps an undefined login with stale `isValid` and `errors`. After the next save, `loadFromStorage` throws inside its `try` and empties the whole collection. With `type: undefined`, the record is validated like LDAP. `UpdateAccount` always succeeds and has no such error path.
- Accounts.Validate: `validateAccount` mutates the record object it is given and returns its new `isValid`. The model returns the updated record as a value, and the boolean is its `isValid`. Aliasing of that object outside the store is not captured.
- Accounts.AccountsStore.UpdateAccount: the in-place mutation of the found record is modelled as replacing that element of the sequence.
- Accounts.ParseLabels: the parameter is typed `string`, so the `!labelsString` guard against `null`/`undefined` is not modelled. An empty string is covered by the blank check.
- `src/main.ts` (UI bootstrap, themes, mounting) is not part of this model.
- Strings: JavaScript strings are UTF-16 code units, while a Dafny `string` holds Unicode scalar values, so a lone surrogate cannot be represented. On every string that can be represented, `trim`, `split(';')` and `length > 0` give the same results as the model.
