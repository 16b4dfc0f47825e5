# Notes store model

A Dafny model of the notes store of a small React Native note-taking app
(`app/context/NotesContext.tsx`). The store holds one state aggregate —
the list of notes, a `loading` flag and an `error` message — plus a
`hasHydrated` flag and one storage entry (key `notes:v1`). Its operations
are `addNote`, `updateNote`, `removeNote`, `refreshFromApi` and `clearAll`,
a one-shot hydration from storage on mount, and a persist effect that
writes the notes through to storage after every change once hydration has
finished.

Layout:

- `wrappers.dfy` — module `Wrappers`: `Option`, used for optional record keys, `null`, and a missing storage entry.
- `text.dfy` — module `Text`: `String.prototype.trim` over the ECMAScript white-space set, and the decimal rendering of the HTTP status in the refresh error.
- `notes.dfy` — module `NotesModel`: the `Note`, `RemoteNote` and update records, and the pure updaters the operations hand to `setState`: `AddLocal` (prepend), `ApplyUpdates` (map with a partial record merge), `RemoveById` (filter by id), `MergeRemote` (keep the local notes, append the first 20 remote records). Lemmas relate them: idempotence, round trips, the local/remote partition, uniqueness of ids.
- `store.dfy` — module `NotesStore`: class `NotesProvider`, whose fields are the state (`notes`, `loading`, `error`), the `hasHydrated` flag and the storage entry (`stored`). Its methods perform each operation and then the persist step, and their postconditions give the whole new state in terms of the updaters.

The optional keys `body` and `isLocal` of a note are `Option` fields. `None` means the key is absent. A note is local only when `isLocal` is `Some(true)`, which matches the truthiness test in `filter((n) => n.isLocal)`. In an update record, `None` is a key that is not present, so `{ ...n, ...updates }` overrides exactly the keys that are present.

External inputs are parameters:

- the clock reading `Date.now()` is the `id` argument of `AddNote`;
- the result of the HTTP request is a `FetchOutcome`: decoded records, a non-ok status, or a thrown value;
- a failed storage read or JSON parse during hydration is the `readFails` argument of `Hydrate`.

The storage entry is held as the list itself, standing for its JSON text.

One behaviour of `clearAll` is easy to misread, and the model follows the code. `clearAll` removes the storage entry and then empties the notes. That empty list is a new `state.notes`, so once hydration has finished the persist effect writes `[]` straight back. `ClearAll` therefore leaves `stored == Some([])` after hydration, and `None` only before it. Hydrating from either gives an empty list.

## Model

| member | source | states |
|---|---|---|
| Text.Trim | app/context/NotesContext.tsx:65 | the trimmed title has no white space at either end, and it is the slice of the input left after cutting white space off both ends |
| Text.TrimKeepsTrimmed | app/context/NotesContext.tsx:65 | trimming a string with no white space at either end gives it back unchanged |
| Text.TrimIdempotent | app/context/NotesContext.tsx:65 | trimming twice is the same as trimming once |
| Text.IntToDecimal | app/context/NotesContext.tsx:84 | the status renders as a leading minus sign exactly when it is negative, followed by decimal digits, without leading zeros, whose value is its magnitude |
| Text.NatToDecimalRoundTrip | app/context/NotesContext.tsx:84 | reading the rendered digits back gives the number |
| NotesModel.AddLocal | app/context/NotesContext.tsx:64-66 | the list grows by one, and the old notes follow in order; the new first note carries the given id, the trimmed title, the body or "" when none is given, and is local |
| NotesModel.ApplyUpdates | app/context/NotesContext.tsx:69-73 | the length is kept, and entries with another id are unchanged; a matching entry keeps its id and `isLocal` and takes only the title and/or body present in the update |
| NotesModel.UpdateAbsentIsNoop | app/context/NotesContext.tsx:72 | updating an id that no entry carries leaves the list unchanged |
| NotesModel.EmptyUpdateIsNoop | app/context/NotesContext.tsx:72 | an update with no keys present leaves the list unchanged |
| NotesModel.UpdateIdempotent | app/context/NotesContext.tsx:72 | applying the same update twice is the same as applying it once |
| NotesModel.UpdateKeepsUniqueIds | app/context/NotesContext.tsx:72 | if ids are unique before an update, they are unique after it |
| NotesModel.UpdateKeepsLocality | app/context/NotesContext.tsx:72 | taking the local notes of an updated list is the same as updating the local notes, because an update never changes `isLocal` |
| NotesModel.RemoveById | app/context/NotesContext.tsx:76-78 | no remaining entry carries the id; every entry with another id remains, in its original relative order; the length drops by the number of matching entries |
| NotesModel.RemoveAbsentIsNoop | app/context/NotesContext.tsx:77 | removing an id that no entry carries leaves the list unchanged |
| NotesModel.RemovePresentDropsOne | app/context/NotesContext.tsx:77 | with unique ids, removing an id that is present shortens the list by exactly one |
| NotesModel.RemoveUndoesAdd | app/context/NotesContext.tsx:64-78 | removing a note just added under a fresh id gives back the earlier list |
| NotesModel.AddKeepsUniqueIds | app/context/NotesContext.tsx:64-66 | adding a note under an id no entry carries keeps ids unique |
| NotesModel.RemoveKeepsUniqueIds | app/context/NotesContext.tsx:76-78 | removing any id keeps ids unique |
| NotesModel.LocalNotes | app/context/NotesContext.tsx:88 | keeps exactly the local notes, all of them (as many as the list holds, duplicates included), in their original relative order |
| NotesModel.LocalNotesAppend | app/context/NotesContext.tsx:88 | the local notes of a concatenation are the local notes of each part, concatenated |
| NotesModel.LocalNotesOfUniform | app/context/NotesContext.tsx:88 | a list of local notes only is its own local part, and a list without local notes has an empty local part |
| NotesModel.ToNote | app/context/NotesContext.tsx:86 | a remote record becomes a note with the same id, title and body; `userId` is dropped and `isLocal` is absent |
| NotesModel.RemoteSlice | app/context/NotesContext.tsx:86 | the result is a prefix of the records, of length min(20, number of records) |
| NotesModel.RemoteToNotes | app/context/NotesContext.tsx:86 | maps the records one-for-one, in the order received |
| NotesModel.MergeRemote | app/context/NotesContext.tsx:86-88 | the result is the local notes in their order, followed by the first min(20, n) records as notes; its length is at most the number of local notes plus 20 |
| NotesModel.MergeRemotePartition | app/context/NotesContext.tsx:86-88 | after a refresh the local notes are exactly those from before, and every earlier local note is still present |
| NotesModel.MergeRemoteIdempotent | app/context/NotesContext.tsx:86-88 | refreshing twice with the same records gives the same list as refreshing once |
| NotesModel.MergeRemoteKeepsUniqueIds | app/context/NotesContext.tsx:86-88 | if ids are unique before a refresh, and the first 20 records carry distinct ids that no local note shares, ids are unique after it |
| NotesModel.AddSurvivesRefresh | app/context/NotesContext.tsx:64-88 | a note added before a refresh stays first, ahead of the refreshed list |
| NotesStore.FailureMessage | app/context/NotesContext.tsx:84-90 | a non-ok status gives "Request failed with status " followed by the status in decimal; a thrown Error gives its message; any other thrown value gives "Unknown error" |
| NotesStore.NotesProvider.constructor | app/context/NotesContext.tsx:37-38 | mounting starts with no notes, not loading, no error, and not hydrated, over the existing storage entry |
| NotesStore.NotesProvider.PersistNotes | app/context/NotesContext.tsx:59-62 | after hydration the storage entry becomes the current notes; before it, the entry is left alone |
| NotesStore.NotesProvider.Hydrate | app/context/NotesContext.tsx:41-56 | runs once, before the store is hydrated; a stored snapshot that can be read replaces the notes, and storage then mirrors them; otherwise the notes stay; the store is hydrated on every path, and the storage, `loading` and `error` are unchanged |
| NotesStore.NotesProvider.AddNote | app/context/NotesContext.tsx:64-67 | the notes become `AddLocal` of the old notes and are persisted once hydrated; `loading`, `error` and the hydration flag are unchanged |
| NotesStore.NotesProvider.UpdateNote | app/context/NotesContext.tsx:69-74 | the notes become `ApplyUpdates` of the old notes and are persisted once hydrated; `loading`, `error` and the hydration flag are unchanged |
| NotesStore.NotesProvider.RemoveNote | app/context/NotesContext.tsx:76-78 | the notes become `RemoveById` of the old notes and are persisted once hydrated; `loading`, `error` and the hydration flag are unchanged |
| NotesStore.NotesProvider.StartRefresh | app/context/NotesContext.tsx:81 | entering a refresh sets `loading` and clears `error`, and leaves the notes and the storage alone |
| NotesStore.NotesProvider.SettleRefresh | app/context/NotesContext.tsx:82-93 | on success the current notes are merged with the records and persisted once hydrated; on failure the notes stay and `error` holds the message; `loading` is false on every path |
| NotesStore.NotesProvider.RefreshFromApi | app/context/NotesContext.tsx:80-94 | a whole refresh: on success the merged notes and no error, on failure the old notes and the message; `loading` is false at the end |
| NotesStore.NotesProvider.ClearAll | app/context/NotesContext.tsx:96-99 | the notes are empty; the storage entry is removed before hydration and holds the empty list after it; `loading`, `error` and the hydration flag are unchanged |
| NotesStore.Restart | app/context/NotesContext.tsx:36-62 | a fresh provider hydrated from storage that mirrored a hydrated provider comes back with the same notes |
| NotesStore.BuyMilk | app/context/NotesContext.tsx:64-78 | on an empty store: adding "Buy milk" gives one local note with body ""; setting its body to "2%" changes only the body; removing it empties the list |

## Left out

- Storage I/O (`AsyncStorage` get, set and remove): asynchronous foreign calls. The model's writes and removals always succeed. In the source, a failed write or removal is swallowed and leaves the entry as it was.
- JSON encoding and decoding: the entry holds the list itself. An entry holding the empty string, which `if (raw)` treats as absent, is not represented. A parse failure is folded into `Hydrate`'s `readFails`.
- `fetch` and `response.json()`: network I/O. Their result is the `FetchOutcome` argument. A thrown Error whose message is empty leaves `error` as the empty string, as in the source.
- `Date.now()`: a clock. The id is an argument. Ids are unbounded integers, not floating-point numbers.
- Concurrency and React's scheduling: each method is atomic. `StartRefresh` and `SettleRefresh` are separate methods, so other operations can come between them, and the merge applies to the notes current at completion. Batching of queued `setState` updaters is not modelled.
- Hydration racing earlier operations: a note added before hydration finishes is not written to storage. A stored snapshot then replaces it, as `Hydrate`'s postcondition shows. This is the source's behaviour, not a separate property.
- The `if (!ctx)` guard and the rest of the React context plumbing (`createContext`, `useMemo`, `useNotes`): framework wiring.
- The list and detail screens and the router layout: view code. The list screen checks for an empty title before `addNote`; that check is not part of the store.
- `updateNote` with a key present but holding `undefined`: the update record only distinguishes present keys from absent ones.
- NotesModel.RemovePresentDropsOne: assumes unique ids, which the store expects but never enforces. Without that assumption, `RemoveById` states the general drop as the number of matching entries.
