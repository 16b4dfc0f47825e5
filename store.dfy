/**
 * The notes provider: the state aggregate (`notes`, `loading`, `error`),
 * the `hasHydrated` flag, and the single storage entry under the key
 * `notes:v1`. Each operation replaces the aggregate with an updater from
 * module NotesModel; once hydration has finished, every commit that
 * replaces `notes` is written through to the storage entry.
 *
 * The storage entry is held as the note list itself (what would be its
 * JSON text); the clock reading of `addNote` and the outcome of the HTTP
 * request are parameters.
 */
module NotesStore {
  import opened Wrappers
  import opened Text
  import opened NotesModel

  /** How the request to the remote endpoint ended. */
  datatype FetchOutcome =
    | Fetched(data: seq<RemoteNote>)     // an ok response whose body decoded to a list of records
    | BadStatus(status: int)             // a response with `ok` false
    | Threw(message: Option<string>)     // fetch or decoding threw: an Error's message, or None for any other value

  /** What the error for a non-ok response starts with, before the status. */
  const STATUS_PREFIX: string := "Request failed with status "

  /** The text the `catch` block stores in `error`. */
  function FailureMessage(o: FetchOutcome): (m: string)
    requires !o.Fetched?
    ensures o.Threw? && o.message.Some? ==> m == o.message.value
    ensures o.BadStatus? ==> && |m| > |STATUS_PREFIX|
                               && m[..|STATUS_PREFIX|] == STATUS_PREFIX
                               && m[|STATUS_PREFIX|..] == IntToDecimal(o.status)
    ensures o.Threw? && o.message.None? ==> m == "Unknown error"
  {
    match o
    case BadStatus(status) => STATUS_PREFIX + IntToDecimal(status)
    case Threw(Some(text)) => text
    case Threw(None) => "Unknown error"
  }

  class NotesProvider {
    /** `state.notes`: the notes, newest local note first. */
    var notes: seq<Note>
    /** `state.loading`: a refresh is in flight. */
    var loading: bool
    /** `state.error`: the message of the last failed refresh, `None` for `null`. */
    var error: Option<string>
    /** The `hasHydrated` ref: persistence is switched on once it is true. */
    var hasHydrated: bool
    /** The storage entry: the snapshot last written, or `None` when there is none. */
    var stored: Option<seq<Note>>

    /** Mounting the provider over whatever the storage already holds. */
    constructor (slot: Option<seq<Note>>)
      ensures notes == [] && !loading && error == None
      ensures !hasHydrated && stored == slot
    {
      notes := [];
      loading := false;
      error := None;
      hasHydrated := false;
      stored := slot;
    }

    /** The storage entry holds exactly the current notes. */
    ghost predicate Mirrored()
      reads this
    {
      stored == Some(notes)
    }

    /**
     * The persist effect, run after each commit that replaced `notes`: it
     * writes the notes through, unless hydration has not finished yet.
     */
    method PersistNotes()
      modifies this`stored
      ensures stored == if hasHydrated then Some(notes) else old(stored)
    {
      if hasHydrated {
        stored := Some(notes);
      }
    }

    /**
     * The one-shot hydration on mount. A snapshot that is present replaces
     * the notes; an absent one, or a read or parse failure (`readFails`),
     * leaves them. Persistence is switched on in every case.
     */
    method Hydrate(readFails: bool)
      requires !hasHydrated
      modifies this`notes, this`stored, this`hasHydrated
      ensures hasHydrated
      ensures notes == if !readFails && old(stored).Some? then old(stored).value else old(notes)
      ensures stored == old(stored)
      ensures !readFails && old(stored).Some? ==> Mirrored()
      ensures loading == old(loading) && error == old(error)
    {
      if !readFails && stored.Some? {
        notes := stored.value;
        hasHydrated := true;
        PersistNotes();
      } else {
        hasHydrated := true;
      }
    }

    /** `addNote(title, body)`, with `id` standing for `Date.now()`. */
    method AddNote(id: int, title: string, body: Option<string>)
      modifies this`notes, this`stored
      ensures notes == AddLocal(old(notes), id, title, body)
      ensures stored == if hasHydrated then Some(notes) else old(stored)
      ensures loading == old(loading) && error == old(error) && hasHydrated == old(hasHydrated)
    {
      notes := AddLocal(notes, id, title, body);
      PersistNotes();
    }

    /** `updateNote(id, updates)`. */
    method UpdateNote(id: int, updates: NoteUpdates)
      modifies this`notes, this`stored
      ensures notes == ApplyUpdates(old(notes), id, updates)
      ensures stored == if hasHydrated then Some(notes) else old(stored)
      ensures loading == old(loading) && error == old(error) && hasHydrated == old(hasHydrated)
    {
      notes := ApplyUpdates(notes, id, updates);
      PersistNotes();
    }

    /** `removeNote(id)`. */
    method RemoveNote(id: int)
      modifies this`notes, this`stored
      ensures notes == RemoveById(old(notes), id)
      ensures stored == if hasHydrated then Some(notes) else old(stored)
      ensures loading == old(loading) && error == old(error) && hasHydrated == old(hasHydrated)
    {
      notes := RemoveById(notes, id);
      PersistNotes();
    }

    /** The first commit of `refreshFromApi`: loading, with the error cleared. */
    method StartRefresh()
      modifies this`loading, this`error
      ensures loading && error == None
      ensures notes == old(notes) && stored == old(stored)
    {
      loading := true;
      error := None;
    }

    /**
     * The rest of `refreshFromApi`, once the request has ended: on success the
     * notes become the merge of the current notes with the records, on
     * failure the error message is set and the notes stay; loading ends
     * either way. Only the successful merge replaces `notes`, so only it is
     * persisted.
     */
    method SettleRefresh(outcome: FetchOutcome)
      modifies this`notes, this`stored, this`loading, this`error
      ensures !loading
      ensures outcome.Fetched? ==> notes == MergeRemote(old(notes), outcome.data) && error == old(error)
      ensures !outcome.Fetched? ==> notes == old(notes) && error == Some(FailureMessage(outcome))
      ensures stored == if outcome.Fetched? && hasHydrated then Some(notes) else old(stored)
      ensures hasHydrated == old(hasHydrated)
    {
      if outcome.Fetched? {
        notes := MergeRemote(notes, outcome.data);
        PersistNotes();
      } else {
        error := Some(FailureMessage(outcome));
      }
      loading := false;
    }

    /**
     * `refreshFromApi()` with nothing else committed while the request is in
     * flight: the error ends up cleared on success and set on failure.
     */
    method RefreshFromApi(outcome: FetchOutcome)
      modifies this`notes, this`stored, this`loading, this`error
      ensures !loading
      ensures outcome.Fetched? ==> notes == MergeRemote(old(notes), outcome.data) && error == None
      ensures !outcome.Fetched? ==> notes == old(notes) && error == Some(FailureMessage(outcome))
      ensures stored == if outcome.Fetched? && hasHydrated then Some(notes) else old(stored)
      ensures hasHydrated == old(hasHydrated)
    {
      StartRefresh();
      SettleRefresh(outcome);
    }

    /**
     * `clearAll()`: the storage entry is removed, then the notes are emptied.
     * After hydration the persist effect writes the empty list back.
     */
    method ClearAll()
      modifies this`notes, this`stored
      ensures notes == []
      ensures stored == if hasHydrated then Some([]) else None
      ensures loading == old(loading) && error == old(error) && hasHydrated == old(hasHydrated)
    {
      stored := None;
      notes := [];
      PersistNotes();
    }
  }

  /**
   * A restart: a fresh provider mounted over the storage a hydrated provider
   * left behind comes back, after hydration, with the same notes.
   */
  method Restart(p: NotesProvider) returns (q: NotesProvider)
    requires p.hasHydrated && p.Mirrored()
    ensures fresh(q) && q.hasHydrated && q.notes == p.notes && q.Mirrored()
  {
    q := new NotesProvider(p.stored);
    q.Hydrate(false);
  }

  /**
   * The walk-through of the store: on an empty store, add "Buy milk", set
   * its body to "2%", then remove it.
   */
  method BuyMilk(t: int) returns (afterAdd: seq<Note>, afterUpdate: seq<Note>, afterRemove: seq<Note>)
    ensures afterAdd == [Note(t, "Buy milk", Some(""), Some(true))]
    ensures afterUpdate == [Note(t, "Buy milk", Some("2%"), Some(true))]
    ensures afterRemove == []
  {
    var store := new NotesProvider(None);
    store.Hydrate(false);
    TrimKeepsTrimmed("Buy milk");
    store.AddNote(t, "Buy milk", None);
    afterAdd := store.notes;
    store.UpdateNote(t, NoteUpdates(None, Some("2%")));
    afterUpdate := store.notes;
    store.RemoveNote(t);
    afterRemove := store.notes;
  }
}
