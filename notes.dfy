/**
 * The note records of the notes store and the pure updaters that its
 * operations hand to `setState`: each takes the current `notes` and gives
 * the next one. The store itself (hydration, persistence, the refresh
 * status flags) is in module NotesStore.
 */
module NotesModel {
  import opened Wrappers
  import opened Text

  /**
   * A note, in memory and in the persisted snapshot. `body` and `isLocal`
   * are optional keys of the record: `None` is a key that is not present.
   */
  datatype Note = Note(id: int, title: string, body: Option<string>, isLocal: Option<bool>)

  /** A record as the remote placeholder endpoint returns it. */
  datatype RemoteNote = RemoteNote(userId: int, id: int, title: string, body: string)

  /** The partial record given to `updateNote`: `None` is a key that is not present. */
  datatype NoteUpdates = NoteUpdates(title: Option<string>, body: Option<string>)

  /** How many remote records a refresh keeps (`data.slice(0, 20)`). */
  const REMOTE_LIMIT: nat := 20

  /** The test of `filter((n) => n.isLocal)`: only a present `true` flag is truthy. */
  predicate IsLocal(n: Note) {
    n.isLocal == Some(true)
  }

  predicate HasId(notes: seq<Note>, id: int) {
    exists n :: n in notes && n.id == id
  }

  /** No two entries share an id: what the store expects, but never checks. */
  predicate UniqueIds(notes: seq<Note>) {
    forall i, j :: 0 <= i < j < |notes| ==> notes[i].id != notes[j].id
  }

  /** The number of entries carrying `id`. */
  function CountId(notes: seq<Note>, id: int): (k: nat)
    ensures k <= |notes|
    ensures k == 0 <==> !HasId(notes, id)
  {
    if notes == [] then 0
    else (if notes[0].id == id then 1 else 0) + CountId(notes[1..], id)
  }

  /** `a` is `b` with some entries left out and the rest in their original order. */
  predicate IsSubsequence<T(==)>(a: seq<T>, b: seq<T>)
    decreases |b|
  {
    if a == [] then true
    else if b == [] then false
    else (a[0] == b[0] && IsSubsequence(a[1..], b[1..])) || IsSubsequence(a, b[1..])
  }

  // ---------------------------------------------------------------- addNote

  /**
   * `addNote(title, body)`: a new local note with the trimmed title and the
   * body defaulted to the empty string, put in front of the others. `id`
   * stands for the clock reading `Date.now()`.
   */
  function AddLocal(notes: seq<Note>, id: int, title: string, body: Option<string>): (r: seq<Note>)
    ensures |r| == |notes| + 1 && r[1..] == notes
    ensures r[0].id == id && IsLocal(r[0])
    ensures r[0].title == Trim(title)
    ensures r[0].body == Some(body.GetOr(""))
  {
    [Note(id, Trim(title), Some(body.GetOr("")), Some(true))] + notes
  }

  // ------------------------------------------------------------- updateNote

  /** `{ ...n, ...updates }`: the keys present in `updates` override those of `n`. */
  function Merge(n: Note, u: NoteUpdates): Note {
    n.(title := u.title.GetOr(n.title), body := if u.body.Some? then u.body else n.body)
  }

  /**
   * `updateNote(id, updates)`: every entry carrying `id` gets the fields
   * present in `updates`; every other entry, and every other field, stays.
   */
  function ApplyUpdates(notes: seq<Note>, id: int, u: NoteUpdates): (r: seq<Note>)
    ensures |r| == |notes|
    ensures forall i :: 0 <= i < |notes| && notes[i].id != id ==> r[i] == notes[i]
    ensures forall i :: 0 <= i < |notes| && notes[i].id == id ==>
              && r[i].id == id
              && r[i].isLocal == notes[i].isLocal
              && r[i].title == (if u.title.Some? then u.title.value else notes[i].title)
              && r[i].body == (if u.body.Some? then u.body else notes[i].body)
  {
    if notes == [] then []
    else [if notes[0].id == id then Merge(notes[0], u) else notes[0]] + ApplyUpdates(notes[1..], id, u)
  }

  /** Updating an id no entry carries leaves the list as it was. */
  lemma UpdateAbsentIsNoop(notes: seq<Note>, id: int, u: NoteUpdates)
    requires !HasId(notes, id)
    ensures ApplyUpdates(notes, id, u) == notes
  {
    var r := ApplyUpdates(notes, id, u);
    forall i | 0 <= i < |notes| ensures r[i] == notes[i] {
      assert notes[i] in notes;
    }
  }

  /** An update with no keys present changes nothing. */
  lemma EmptyUpdateIsNoop(notes: seq<Note>, id: int)
    ensures ApplyUpdates(notes, id, NoteUpdates(None, None)) == notes
  {
    var r := ApplyUpdates(notes, id, NoteUpdates(None, None));
    forall i | 0 <= i < |notes| ensures r[i] == notes[i] { }
  }

  /** Applying the same update twice is applying it once. */
  lemma UpdateIdempotent(notes: seq<Note>, id: int, u: NoteUpdates)
    ensures ApplyUpdates(ApplyUpdates(notes, id, u), id, u) == ApplyUpdates(notes, id, u)
  {
    var once := ApplyUpdates(notes, id, u);
    var twice := ApplyUpdates(once, id, u);
    forall i | 0 <= i < |notes| ensures twice[i] == once[i] { }
  }

  /** An update keeps every id where it was, so ids stay unique. */
  lemma UpdateKeepsUniqueIds(notes: seq<Note>, id: int, u: NoteUpdates)
    requires UniqueIds(notes)
    ensures UniqueIds(ApplyUpdates(notes, id, u))
  {
    var r := ApplyUpdates(notes, id, u);
    assert forall i :: 0 <= i < |notes| ==> r[i].id == notes[i].id;
  }

  // ------------------------------------------------------------- removeNote

  /**
   * `removeNote(id)`: the entries not carrying `id`, all of them, in their
   * original order.
   */
  function RemoveById(notes: seq<Note>, id: int): (r: seq<Note>)
    ensures forall n :: n in r ==> n in notes && n.id != id
    ensures forall n :: n in notes && n.id != id ==> n in r
    ensures |r| == |notes| - CountId(notes, id)
    ensures IsSubsequence(r, notes)
  {
    if notes == [] then []
    else
      var rest := RemoveById(notes[1..], id);
      if notes[0].id == id then rest
      else
        assert ([notes[0]] + rest)[1..] == rest;
        [notes[0]] + rest
  }

  /** Removing an id no entry carries leaves the list as it was. */
  lemma {:induction false} RemoveAbsentIsNoop(notes: seq<Note>, id: int)
    requires !HasId(notes, id)
    ensures RemoveById(notes, id) == notes
  {
    if notes != [] {
      assert notes[0] in notes;
      assert !HasId(notes[1..], id) by {
        forall n | n in notes[1..] ensures n.id != id { assert n in notes; }
      }
      RemoveAbsentIsNoop(notes[1..], id);
    }
  }

  /** Under unique ids an id present once is counted once. */
  lemma {:induction false} CountUniqueId(notes: seq<Note>, id: int)
    requires UniqueIds(notes) && HasId(notes, id)
    ensures CountId(notes, id) == 1
  {
    var rest := notes[1..];
    assert UniqueIds(rest) by {
      forall i, j | 0 <= i < j < |rest| ensures rest[i].id != rest[j].id {
        assert rest[i] == notes[i + 1] && rest[j] == notes[j + 1];
      }
    }
    if notes[0].id == id {
      assert !HasId(rest, id) by {
        forall n | n in rest ensures n.id != id {
          var j :| 0 <= j < |rest| && rest[j] == n;
          assert notes[j + 1] == n;
        }
      }
    } else {
      var n :| n in notes && n.id == id;
      assert n in rest;
      CountUniqueId(rest, id);
    }
  }

  /** With unique ids, removing an id that is present makes the list exactly one shorter. */
  lemma RemovePresentDropsOne(notes: seq<Note>, id: int)
    requires UniqueIds(notes) && HasId(notes, id)
    ensures |RemoveById(notes, id)| == |notes| - 1
  {
    CountUniqueId(notes, id);
  }

  /** Removing a freshly added note gives back the list it was added to. */
  lemma RemoveUndoesAdd(notes: seq<Note>, id: int, title: string, body: Option<string>)
    requires !HasId(notes, id)
    ensures RemoveById(AddLocal(notes, id, title, body), id) == notes
  {
    var added := AddLocal(notes, id, title, body);
    assert added[1..] == notes;
    RemoveAbsentIsNoop(notes, id);
  }

  /** Dropping entries from a list with unique ids keeps them unique. */
  lemma {:induction false} SubsequenceKeepsUniqueIds(a: seq<Note>, b: seq<Note>)
    requires IsSubsequence(a, b) && UniqueIds(b)
    ensures UniqueIds(a)
    decreases |b|
  {
    if a != [] {
      assert b != [];
      var rest := b[1..];
      assert UniqueIds(rest) by {
        forall i, j | 0 <= i < j < |rest| ensures rest[i].id != rest[j].id {
          assert rest[i] == b[i + 1] && rest[j] == b[j + 1];
        }
      }
      if a[0] == b[0] && IsSubsequence(a[1..], rest) {
        SubsequenceKeepsUniqueIds(a[1..], rest);
        SubsequenceMembers(a[1..], rest);
        forall i, j | 0 <= i < j < |a| ensures a[i].id != a[j].id {
          if i == 0 {
            assert a[j] == a[1..][j - 1];
            assert a[j] in rest;
            var k :| 0 <= k < |rest| && rest[k] == a[j];
            assert b[k + 1] == a[j];
          } else {
            assert a[i] == a[1..][i - 1] && a[j] == a[1..][j - 1];
          }
        }
      } else {
        SubsequenceKeepsUniqueIds(a, rest);
      }
    }
  }

  /** Every entry of a subsequence is an entry of the whole. */
  lemma {:induction false} SubsequenceMembers<T>(a: seq<T>, b: seq<T>)
    requires IsSubsequence(a, b)
    ensures forall x :: x in a ==> x in b
    decreases |b|
  {
    if a != [] {
      if a[0] == b[0] && IsSubsequence(a[1..], b[1..]) {
        SubsequenceMembers(a[1..], b[1..]);
        assert a == [a[0]] + a[1..];
      } else {
        SubsequenceMembers(a, b[1..]);
      }
    }
  }

  /** Adding a note under an id no entry carries keeps ids unique. */
  lemma AddKeepsUniqueIds(notes: seq<Note>, id: int, title: string, body: Option<string>)
    requires UniqueIds(notes) && !HasId(notes, id)
    ensures UniqueIds(AddLocal(notes, id, title, body))
  {
    var r := AddLocal(notes, id, title, body);
    forall i, j | 0 <= i < j < |r| ensures r[i].id != r[j].id {
      assert r[j] == notes[j - 1];
      if i == 0 {
        assert notes[j - 1] in notes;
      } else {
        assert r[i] == notes[i - 1];
      }
    }
  }

  /** Removing any id keeps ids unique. */
  lemma RemoveKeepsUniqueIds(notes: seq<Note>, id: int)
    requires UniqueIds(notes)
    ensures UniqueIds(RemoveById(notes, id))
  {
    SubsequenceKeepsUniqueIds(RemoveById(notes, id), notes);
  }

  // --------------------------------------------------------- refreshFromApi

  /** The number of local entries. */
  function CountLocal(notes: seq<Note>): (k: nat)
    ensures k <= |notes|
  {
    if notes == [] then 0
    else (if IsLocal(notes[0]) then 1 else 0) + CountLocal(notes[1..])
  }

  /** `filter((n) => n.isLocal)`: the local entries, all of them, in their original order. */
  function LocalNotes(notes: seq<Note>): (r: seq<Note>)
    ensures forall n :: n in r ==> n in notes && IsLocal(n)
    ensures forall n :: n in notes && IsLocal(n) ==> n in r
    ensures |r| == CountLocal(notes)
    ensures IsSubsequence(r, notes)
  {
    if notes == [] then []
    else
      var rest := LocalNotes(notes[1..]);
      if !IsLocal(notes[0]) then rest
      else
        assert ([notes[0]] + rest)[1..] == rest;
        [notes[0]] + rest
  }

  /** The note a remote record becomes: id, title and body copied, `isLocal` absent. */
  function ToNote(rn: RemoteNote): (n: Note)
    ensures n.id == rn.id && n.title == rn.title && n.body == Some(rn.body)
    ensures n.isLocal == None && !IsLocal(n)
  {
    Note(rn.id, rn.title, Some(rn.body), None)
  }

  /** `data.slice(0, 20)`: the first records, at most twenty of them. */
  function RemoteSlice(data: seq<RemoteNote>): (r: seq<RemoteNote>)
    ensures r <= data
    ensures |r| == if |data| < REMOTE_LIMIT then |data| else REMOTE_LIMIT
  {
    if |data| < REMOTE_LIMIT then data else data[..REMOTE_LIMIT]
  }

  /** `.map(toNote)` over the remote records, in the order received. */
  function RemoteToNotes(data: seq<RemoteNote>): (r: seq<Note>)
    ensures |r| == |data|
    ensures forall i :: 0 <= i < |data| ==> r[i] == ToNote(data[i])
  {
    if data == [] then [] else [ToNote(data[0])] + RemoteToNotes(data[1..])
  }

  /**
   * The successful refresh: the local notes, in their order, followed by the
   * first twenty remote records as notes; every earlier remote note is gone.
   */
  function MergeRemote(notes: seq<Note>, data: seq<RemoteNote>): (r: seq<Note>)
    ensures |r| <= |LocalNotes(notes)| + REMOTE_LIMIT
    ensures |r| == |LocalNotes(notes)| + |RemoteSlice(data)|
    ensures r[..|LocalNotes(notes)|] == LocalNotes(notes)
    ensures forall i :: 0 <= i < |r| - |LocalNotes(notes)| ==>
              r[|LocalNotes(notes)| + i] == ToNote(data[i])
  {
    var locals := LocalNotes(notes);
    RemoteAfter(locals, data);
    locals + RemoteToNotes(RemoteSlice(data))
  }

  /** The records follow `locals` as notes, in the order received. */
  lemma RemoteAfter(locals: seq<Note>, data: seq<RemoteNote>)
    ensures var r := locals + RemoteToNotes(RemoteSlice(data));
            && r[..|locals|] == locals
            && forall i :: 0 <= i < |r| - |locals| ==> r[|locals| + i] == ToNote(data[i])
  {
    var slice := RemoteSlice(data);
    var remote := RemoteToNotes(slice);
    var r := locals + remote;
    assert r[..|locals|] == locals;
    forall i | 0 <= i < |r| - |locals| ensures r[|locals| + i] == ToNote(data[i]) {
      assert r[|locals| + i] == remote[i];
      assert slice[i] == data[i];
    }
  }

  /** Keeping the local entries of a concatenation keeps those of each part. */
  lemma {:induction false} LocalNotesAppend(a: seq<Note>, b: seq<Note>)
    ensures LocalNotes(a + b) == LocalNotes(a) + LocalNotes(b)
  {
    if a != [] {
      assert (a + b)[0] == a[0];
      assert (a + b)[1..] == a[1..] + b;
      LocalNotesAppend(a[1..], b);
      if IsLocal(a[0]) {
        calc {
          LocalNotes(a + b);
          [a[0]] + LocalNotes(a[1..] + b);
          [a[0]] + (LocalNotes(a[1..]) + LocalNotes(b));
          ([a[0]] + LocalNotes(a[1..])) + LocalNotes(b);
          LocalNotes(a) + LocalNotes(b);
        }
      } else {
        assert LocalNotes(a + b) == LocalNotes(a[1..] + b);
        assert LocalNotes(a) == LocalNotes(a[1..]);
      }
    } else {
      assert a + b == b;
    }
  }

  /** A list of local notes only is its own local part; one without any has none. */
  lemma {:induction false} LocalNotesOfUniform(notes: seq<Note>)
    ensures (forall n :: n in notes ==> IsLocal(n)) ==> LocalNotes(notes) == notes
    ensures (forall n :: n in notes ==> !IsLocal(n)) ==> LocalNotes(notes) == []
  {
    if notes != [] {
      assert notes[0] in notes;
      assert forall n :: n in notes[1..] ==> n in notes;
      LocalNotesOfUniform(notes[1..]);
    }
  }

  /**
   * A refresh keeps the local part exactly and holds no other local note:
   * the list splits into the prior local notes and the new remote ones.
   */
  lemma MergeRemotePartition(notes: seq<Note>, data: seq<RemoteNote>)
    ensures LocalNotes(MergeRemote(notes, data)) == LocalNotes(notes)
    ensures forall n :: n in notes && IsLocal(n) ==> n in MergeRemote(notes, data)
  {
    var locals := LocalNotes(notes);
    var remote := RemoteToNotes(RemoteSlice(data));
    LocalNotesAppend(locals, remote);
    LocalNotesOfUniform(locals);
    LocalNotesOfUniform(remote);
  }

  /** Refreshing twice with the same records is refreshing once. */
  lemma MergeRemoteIdempotent(notes: seq<Note>, data: seq<RemoteNote>)
    ensures MergeRemote(MergeRemote(notes, data), data) == MergeRemote(notes, data)
  {
    MergeRemotePartition(notes, data);
  }

  /**
   * A refresh keeps ids unique when the ids it brings in are: the kept
   * records carry distinct ids, none of them shared with a local note.
   * The endpoint's ids are copied unchecked, so nothing weaker suffices.
   */
  lemma MergeRemoteKeepsUniqueIds(notes: seq<Note>, data: seq<RemoteNote>)
    requires UniqueIds(notes)
    requires var s := RemoteSlice(data); forall i, j :: 0 <= i < j < |s| ==> s[i].id != s[j].id
    requires forall n, rn :: n in notes && IsLocal(n) && rn in RemoteSlice(data) ==> n.id != rn.id
    ensures UniqueIds(MergeRemote(notes, data))
  {
    var locals := LocalNotes(notes);
    var slice := RemoteSlice(data);
    var remote := RemoteToNotes(slice);
    var r := MergeRemote(notes, data);
    assert r == locals + remote;
    SubsequenceKeepsUniqueIds(locals, notes);
    forall i, j | 0 <= i < j < |r| ensures r[i].id != r[j].id {
      if j < |locals| {
        assert r[i] == locals[i] && r[j] == locals[j];
      } else if i < |locals| {
        var rn := slice[j - |locals|];
        assert r[i] == locals[i] && r[j] == remote[j - |locals|] == ToNote(rn);
        assert locals[i] in locals && rn in slice;
      } else {
        assert r[i] == ToNote(slice[i - |locals|]) && r[j] == ToNote(slice[j - |locals|]);
      }
    }
  }

  /** A note added before a refresh stays on top of the refreshed list. */
  lemma AddSurvivesRefresh(notes: seq<Note>, data: seq<RemoteNote>, id: int, title: string, body: Option<string>)
    ensures var added := AddLocal(notes, id, title, body);
            MergeRemote(added, data) == [added[0]] + MergeRemote(notes, data)
  {
    var added := AddLocal(notes, id, title, body);
    assert added == [added[0]] + notes;
    LocalNotesAppend([added[0]], notes);
    LocalNotesOfUniform([added[0]]);
  }

  /** Updating commutes with keeping the local notes, since it never touches `isLocal`. */
  lemma {:induction false} UpdateKeepsLocality(notes: seq<Note>, id: int, u: NoteUpdates)
    ensures LocalNotes(ApplyUpdates(notes, id, u)) == ApplyUpdates(LocalNotes(notes), id, u)
  {
    if notes != [] {
      var r := ApplyUpdates(notes, id, u);
      assert r[1..] == ApplyUpdates(notes[1..], id, u);
      assert IsLocal(r[0]) == IsLocal(notes[0]);
      UpdateKeepsLocality(notes[1..], id, u);
      if IsLocal(notes[0]) {
        assert LocalNotes(notes) == [notes[0]] + LocalNotes(notes[1..]);
      }
    }
  }
}
