/** The REST backend's in-memory note store (backend/server.js): one
    module-level array of notes that the list, create, delete and update
    route handlers read and change in place. */
module NoteStore {
  import opened Wrappers

  /** A JSON value as the body parser hands it over. The handlers store
      whatever `content` holds without looking at it. */
  datatype Json =
    | Null
    | Bool(b: bool)
    | Number(n: real)
    | Str(s: string)
    | Array(items: seq<Json>)
    | Object(fields: seq<(string, Json)>)

  /** A stored note. `content` is None when the request body carried no
      `content` field (the handlers store JavaScript's `undefined` as is,
      and it is left out when the note is serialised); `Some(Null)` is an
      explicit `null`. `updatedAt` is None until the note is first updated.
      Timestamps are opaque strings produced by the clock. */
  datatype Note = Note(id: int, content: Option<Json>, createdAt: string, updatedAt: Option<string>)

  /** What PUT answers with: the updated note, or the error payload. */
  datatype UpdateBody = NoteBody(note: Note) | ErrorBody(error: string)

  /** The answers the handlers give: 200, 201, 204 and 404. */
  datatype Status = Ok | Created | NoContent | NotFound

  function Code(status: Status): nat
  {
    match status
    case Ok => 200
    case Created => 201
    case NoContent => 204
    case NotFound => 404
  }

  /** `note.id === parseInt(id)`: a path id that does not parse is `NaN`,
      which equals no number, so it matches no note. */
  predicate Matches(n: Note, target: Option<int>)
  {
    target.Some? && n.id == target.value
  }

  /** No two notes share an id. The store does not enforce this: ids come
      from the clock. */
  predicate UniqueIds(s: seq<Note>)
  {
    forall i, j :: 0 <= i < j < |s| ==> s[i].id != s[j].id
  }

  /** `notes.filter(note => note.id !== parseInt(id))` */
  function Without(s: seq<Note>, target: Option<int>): seq<Note>
  {
    if s == [] then []
    else if Matches(s[0], target) then Without(s[1..], target)
    else [s[0]] + Without(s[1..], target)
  }

  /** `notes.findIndex(note => note.id === parseInt(id))`, with None for -1:
      the first index whose note matches, if any. */
  function FirstMatch(s: seq<Note>, target: Option<int>): (r: Option<nat>)
    ensures r.Some? ==> r.value < |s| && Matches(s[r.value], target)
    ensures r.Some? ==> forall j :: 0 <= j < r.value ==> !Matches(s[j], target)
    ensures r.None? <==> forall j :: 0 <= j < |s| ==> !Matches(s[j], target)
  {
    if s == [] then None
    else if Matches(s[0], target) then Some(0)
    else match FirstMatch(s[1..], target)
      case None => None
      case Some(k) => Some(k + 1)
  }

  /** A note survives the filter exactly when it was stored and does not match. */
  lemma {:induction false} WithoutMembers(s: seq<Note>, target: Option<int>, n: Note)
    ensures n in Without(s, target) <==> n in s && !Matches(n, target)
  {
    if s != [] {
      WithoutMembers(s[1..], target, n);
      assert s == [s[0]] + s[1..];
    }
  }

  /** Filtering works piecewise, so the survivors keep their relative order. */
  lemma {:induction false} WithoutConcat(a: seq<Note>, b: seq<Note>, target: Option<int>)
    ensures Without(a + b, target) == Without(a, target) + Without(b, target)
  {
    if a == [] {
      assert a + b == b;
    } else {
      assert (a + b)[0] == a[0];
      assert (a + b)[1..] == a[1..] + b;
      WithoutConcat(a[1..], b, target);
      if !Matches(a[0], target) {
        assert [a[0]] + (Without(a[1..], target) + Without(b, target))
            == ([a[0]] + Without(a[1..], target)) + Without(b, target);
      }
    }
  }

  /** A delete whose id matches no note, an absent or a non-numeric one,
      leaves the collection as it was. */
  lemma {:induction false} WithoutNoMatch(s: seq<Note>, target: Option<int>)
    requires forall j :: 0 <= j < |s| ==> !Matches(s[j], target)
    ensures Without(s, target) == s
  {
    if s != [] {
      WithoutNoMatch(s[1..], target);
    }
  }

  /** A path id that does not parse deletes nothing. */
  lemma {:induction false} WithoutUnparsed(s: seq<Note>)
    ensures Without(s, None) == s
  {
    WithoutNoMatch(s, None);
  }

  /** Every note with the id is gone after one delete. */
  lemma {:induction false} WithoutRemovesAll(s: seq<Note>, target: Option<int>)
    ensures forall j :: 0 <= j < |Without(s, target)| ==> !Matches(Without(s, target)[j], target)
  {
    var r := Without(s, target);
    forall j | 0 <= j < |r|
      ensures !Matches(r[j], target)
    {
      WithoutMembers(s, target, r[j]);
    }
  }

  /** Deleting twice is deleting once. */
  lemma {:induction false} WithoutIdempotent(s: seq<Note>, target: Option<int>)
    ensures Without(Without(s, target), target) == Without(s, target)
  {
    WithoutRemovesAll(s, target);
    WithoutNoMatch(Without(s, target), target);
  }

  /** Deleting the id of the one note in the middle that has it leaves
      the notes around it, in order. */
  lemma {:induction false} WithoutSoleMatch(front: seq<Note>, n: Note, back: seq<Note>, target: Option<int>)
    requires Matches(n, target)
    requires forall j :: 0 <= j < |front| ==> !Matches(front[j], target)
    requires forall j :: 0 <= j < |back| ==> !Matches(back[j], target)
    ensures Without(front + [n] + back, target) == front + back
  {
    assert Without([n], target) == [] by {
      assert [n][1..] == [];
    }
    WithoutConcat(front, [n], target);
    WithoutNoMatch(front, target);
    assert front + [] == front;
    WithoutConcat(front + [n], back, target);
    WithoutNoMatch(back, target);
  }

  /** When no other note shares the id of the note at i (as with unique
      ids), deleting that id removes exactly that note and keeps the others
      in order. */
  lemma {:induction false} SoleMatchWithoutRemovesOne(s: seq<Note>, i: nat)
    requires i < |s|
    requires forall j :: 0 <= j < |s| && j != i ==> s[j].id != s[i].id
    ensures Without(s, Some(s[i].id)) == s[..i] + s[i + 1..]
  {
    var target := Some(s[i].id);
    var front, back := s[..i], s[i + 1..];
    assert forall j :: 0 <= j < |front| ==> front[j] == s[j];
    assert forall j :: 0 <= j < |back| ==> back[j] == s[i + 1 + j];
    assert s == front + [s[i]] + back;
    WithoutSoleMatch(front, s[i], back, target);
  }

  /** Deleting a freshly created note whose id no older note shares gives
      back the collection as it was before the create. */
  lemma {:induction false} CreateThenDeleteRestores(s: seq<Note>, n: Note)
    requires forall j :: 0 <= j < |s| ==> s[j].id != n.id
    ensures Without(s + [n], Some(n.id)) == s
  {
    WithoutConcat(s, [n], Some(n.id));
    WithoutNoMatch(s, Some(n.id));
    assert [n][1..] == [];
  }

  /** If the clock has moved past every stored id, create keeps ids unique. */
  lemma AppendLaterKeepsUnique(s: seq<Note>, n: Note)
    requires UniqueIds(s)
    requires forall j :: 0 <= j < |s| ==> s[j].id < n.id
    ensures UniqueIds(s + [n])
  {
  }

  /** Delete keeps ids unique. */
  lemma {:induction false} WithoutKeepsUnique(s: seq<Note>, target: Option<int>)
    requires UniqueIds(s)
    ensures UniqueIds(Without(s, target))
  {
    if s != [] {
      var t := Without(s[1..], target);
      WithoutKeepsUnique(s[1..], target);
      if !Matches(s[0], target) {
        forall j | 0 <= j < |t|
          ensures t[j].id != s[0].id
        {
          WithoutMembers(s[1..], target, t[j]);
          var k :| 0 <= k < |s[1..]| && s[1..][k] == t[j];
          assert s[k + 1] == t[j];
        }
      }
    }
  }

  /** The process-wide note collection and its route handlers. Express
      plumbing is gone: a handler takes the parsed request and the clock
      readings it uses, and answers with a status and a body. */
  class Store {
    var notes: seq<Note>

    /** `let notes = []` at start-up. */
    constructor ()
      ensures notes == []
    {
      notes := [];
    }

    /** GET /api/notes: the collection as it is, in insertion order. */
    method List() returns (status: Status, body: seq<Note>)
      ensures status == Ok && Code(status) == 200
      ensures body == notes
    {
      status, body := Ok, notes;
    }

    /** POST /api/notes: any content, even a missing one, is accepted; the
        new note takes the clock's reading `now` as id and `nowIso` as its
        creation time, and goes last. */
    method Create(content: Option<Json>, now: int, nowIso: string) returns (status: Status, created: Note)
      modifies this
      ensures status == Created && Code(status) == 201
      ensures created.id == now && created.content == content
      ensures created.createdAt == nowIso && created.updatedAt == None
      ensures |notes| == |old(notes)| + 1
      ensures notes[..|old(notes)|] == old(notes) && notes[|old(notes)|] == created
      ensures UniqueIds(old(notes)) && (forall j :: 0 <= j < |old(notes)| ==> old(notes)[j].id < now) ==>
        UniqueIds(notes)
    {
      created := Note(now, content, nowIso, None);
      if UniqueIds(notes) && forall j :: 0 <= j < |notes| ==> notes[j].id < now {
        AppendLaterKeepsUnique(notes, created);
      }
      notes := notes + [created];
      status := Created;
    }

    /** DELETE /api/notes/:id: drops every note with that id, keeps the rest
        in order, and succeeds whether or not anything matched. */
    method Delete(target: Option<int>) returns (status: Status)
      modifies this
      ensures status == NoContent && Code(status) == 204
      ensures notes == Without(old(notes), target)
      ensures forall n :: n in notes <==> n in old(notes) && !Matches(n, target)
      ensures (forall j :: 0 <= j < |old(notes)| ==> !Matches(old(notes)[j], target)) ==> notes == old(notes)
      ensures UniqueIds(old(notes)) ==> UniqueIds(notes)
    {
      ghost var before := notes;
      if UniqueIds(notes) {
        WithoutKeepsUnique(notes, target);
      }
      notes := Without(notes, target);
      forall n
        ensures n in notes <==> n in before && !Matches(n, target)
      {
        WithoutMembers(before, target, n);
      }
      if forall j :: 0 <= j < |before| ==> !Matches(before[j], target) {
        WithoutNoMatch(before, target);
      }
      status := NoContent;
    }

    /** PUT /api/notes/:id: 404 with the error payload when no note has
        that id; otherwise the FIRST note with it gets the new content and
        `updatedAt`, keeps its id and creation time, and is returned;
        nothing else changes. */
    method Update(target: Option<int>, content: Option<Json>, nowIso: string)
      returns (status: Status, body: UpdateBody)
      modifies this
      ensures (status == NotFound) <==> forall j :: 0 <= j < |old(notes)| ==> !Matches(old(notes)[j], target)
      ensures status == NotFound ==>
        Code(status) == 404 && body == ErrorBody("Note not found") && notes == old(notes)
      ensures status != NotFound ==> status == Ok && Code(status) == 200
      ensures status != NotFound ==>
        FirstMatch(old(notes), target).Some? && body.NoteBody? &&
        (var i := FirstMatch(old(notes), target).value;
         |notes| == |old(notes)| && notes[i] == body.note &&
         body.note.id == old(notes)[i].id && body.note.createdAt == old(notes)[i].createdAt &&
         body.note.content == content && body.note.updatedAt == Some(nowIso) &&
         (forall j :: 0 <= j < |notes| && j != i ==> notes[j] == old(notes)[j]))
      ensures UniqueIds(old(notes)) ==> UniqueIds(notes)
    {
      match FirstMatch(notes, target)
      case None =>
        status, body := NotFound, ErrorBody("Note not found");
      case Some(i) =>
        var note := notes[i].(content := content, updatedAt := Some(nowIso));
        ghost var before := notes;
        notes := notes[i := note];
        assert forall j :: 0 <= j < |notes| ==> notes[j].id == before[j].id;
        status, body := Ok, NoteBody(note);
    }
  }

  /** The end-to-end scenario: starting empty, create "buy milk" and list,
      create "call mom" and list (creation order), then delete the first by
      id and list. The last list holds only the second note when the two
      creates read different clock values; when they read the same one,
      the delete removes both notes. */
  method Scenario(t1: int, t2: int, iso1: string, iso2: string)
    returns (afterFirst: seq<Note>, afterSecond: seq<Note>, afterDelete: seq<Note>)
    ensures afterFirst == [Note(t1, Some(Str("buy milk")), iso1, None)]
    ensures afterSecond == afterFirst + [Note(t2, Some(Str("call mom")), iso2, None)]
    ensures t1 != t2 ==> afterDelete == [Note(t2, Some(Str("call mom")), iso2, None)]
    ensures t1 == t2 ==> afterDelete == []
  {
    var store := new Store();
    var _, first := store.Create(Some(Str("buy milk")), t1, iso1);
    var status, listed := store.List();
    afterFirst := listed;
    var _, second := store.Create(Some(Str("call mom")), t2, iso2);
    status, listed := store.List();
    afterSecond := listed;
    assert afterSecond == [first, second];
    var _ := store.Delete(Some(first.id));
    status, listed := store.List();
    afterDelete := listed;
    var target := Some(t1);
    assert [first, second][1..] == [second] && [second][1..] == [];
    assert Without([first, second], target) == Without([second], target);
    assert Without([second], target) == if t1 == t2 then [] else [second];
  }
}
