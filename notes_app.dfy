/** The client's note list (frontend/src/App.jsx): the component state
    `notes` and the draft `currentNote`, changed by `addNote` and
    `deleteNote`. */
module NotesApp {

  /** A note as the client builds it: `id` from the clock, the draft as
      typed, and `createdAt` as an opaque locale-formatted time. */
  datatype ClientNote = ClientNote(id: int, content: string, createdAt: string)

  /** The code points `String.prototype.trim` strips: ECMAScript's
      WhiteSpace (tab, vertical tab, form feed, U+FEFF and every space
      separator) and LineTerminator (LF, CR, U+2028, U+2029). */
  predicate IsJsWhiteSpace(c: char)
  {
    c == '\t' || c == '\n' || c == '\U{000B}' || c == '\U{000C}' || c == '\r' ||
    c == ' ' || c == '\U{00A0}' || c == '\U{1680}' || ('\U{2000}' <= c <= '\U{200A}') ||
    c == '\U{2028}' || c == '\U{2029}' || c == '\U{202F}' || c == '\U{205F}' ||
    c == '\U{3000}' || c == '\U{FEFF}'
  }

  /** The draft holds nothing but white space (or nothing at all). */
  predicate IsBlank(s: string)
  {
    forall i :: 0 <= i < |s| ==> IsJsWhiteSpace(s[i])
  }

  /** The index of the first character at or after `i` that is not white
      space (`|s|` if there is none). */
  function SkipSpace(s: string, i: nat): (k: nat)
    requires i <= |s|
    ensures i <= k <= |s|
    ensures forall j :: i <= j < k ==> IsJsWhiteSpace(s[j])
    ensures k < |s| ==> !IsJsWhiteSpace(s[k])
    decreases |s| - i
  {
    if i < |s| && IsJsWhiteSpace(s[i]) then SkipSpace(s, i + 1) else i
  }

  /** The end of `s[lo..e]` once its trailing white space is dropped. */
  function SkipSpaceBack(s: string, lo: nat, e: nat): (k: nat)
    requires lo <= e <= |s|
    ensures lo <= k <= e
    ensures forall j :: k <= j < e ==> IsJsWhiteSpace(s[j])
    ensures lo < k ==> !IsJsWhiteSpace(s[k - 1])
  {
    if lo < e && IsJsWhiteSpace(s[e - 1]) then SkipSpaceBack(s, lo, e - 1) else e
  }

  /** `s.trim()`: `s` without its leading and trailing white space. */
  function Trim(s: string): (r: string)
    ensures r == [] <==> IsBlank(s)
    ensures r != [] ==> !IsJsWhiteSpace(r[0]) && !IsJsWhiteSpace(r[|r| - 1])
  {
    var start := SkipSpace(s, 0);
    var end := SkipSpaceBack(s, start, |s|);
    assert start < |s| ==> start < end;
    s[start..end]
  }

  /** `s.trim()` is the slice of `s` that starts at the first character that
      is not white space, and only white space lies outside it. */
  lemma TrimSlice(s: string)
    ensures SkipSpace(s, 0) + |Trim(s)| <= |s|
    ensures Trim(s) == s[SkipSpace(s, 0)..SkipSpace(s, 0) + |Trim(s)|]
    ensures forall i :: 0 <= i < SkipSpace(s, 0) ==> IsJsWhiteSpace(s[i])
    ensures forall i :: SkipSpace(s, 0) + |Trim(s)| <= i < |s| ==> IsJsWhiteSpace(s[i])
  {
  }

  /** `notes.filter(note => note.id !== id)` */
  function Remove(notes: seq<ClientNote>, id: int): seq<ClientNote>
  {
    if notes == [] then []
    else if notes[0].id == id then Remove(notes[1..], id)
    else [notes[0]] + Remove(notes[1..], id)
  }

  /** A note stays exactly when it was there and has a different id. */
  lemma {:induction false} RemoveMembers(notes: seq<ClientNote>, id: int, n: ClientNote)
    ensures n in Remove(notes, id) <==> n in notes && n.id != id
  {
    if notes != [] {
      RemoveMembers(notes[1..], id, n);
      assert notes == [notes[0]] + notes[1..];
    }
  }

  /** Removal works piecewise, so the notes kept stay in their order. */
  lemma {:induction false} RemoveConcat(a: seq<ClientNote>, b: seq<ClientNote>, id: int)
    ensures Remove(a + b, id) == Remove(a, id) + Remove(b, id)
  {
    if a == [] {
      assert a + b == b;
    } else {
      assert (a + b)[0] == a[0];
      assert (a + b)[1..] == a[1..] + b;
      RemoveConcat(a[1..], b, id);
      if a[0].id != id {
        assert [a[0]] + (Remove(a[1..], id) + Remove(b, id))
            == ([a[0]] + Remove(a[1..], id)) + Remove(b, id);
      }
    }
  }

  /** Removing an id no note has changes nothing. */
  lemma {:induction false} RemoveAbsent(notes: seq<ClientNote>, id: int)
    requires forall j :: 0 <= j < |notes| ==> notes[j].id != id
    ensures Remove(notes, id) == notes
  {
    if notes != [] {
      RemoveAbsent(notes[1..], id);
    }
  }

  /** Removing twice is removing once. */
  lemma {:induction false} RemoveIdempotent(notes: seq<ClientNote>, id: int)
    ensures Remove(Remove(notes, id), id) == Remove(notes, id)
  {
    var r := Remove(notes, id);
    forall j | 0 <= j < |r|
      ensures r[j].id != id
    {
      RemoveMembers(notes, id, r[j]);
    }
    RemoveAbsent(r, id);
  }

  /** Deleting a just-added note whose id no earlier note shares gives back
      the list as it was before the add. */
  lemma {:induction false} AddThenDeleteRestores(notes: seq<ClientNote>, n: ClientNote)
    requires forall j :: 0 <= j < |notes| ==> notes[j].id != n.id
    ensures Remove(notes + [n], n.id) == notes
  {
    RemoveConcat(notes, [n], n.id);
    RemoveAbsent(notes, n.id);
    assert [n][1..] == [];
  }

  /** The component's state and its two handlers. The clock readings
      `Date.now()` and `toLocaleString()` are parameters. */
  class App {
    var notes: seq<ClientNote>
    var currentNote: string

    /** `useState([])` and `useState('')`. */
    constructor ()
      ensures notes == [] && currentNote == ""
    {
      notes, currentNote := [], "";
    }

    /** A blank draft changes nothing; otherwise the untrimmed draft is
        appended as a new note after all earlier ones and the draft is
        cleared. */
    method AddNote(now: int, nowLocale: string)
      modifies this
      ensures IsBlank(old(currentNote)) ==> notes == old(notes) && currentNote == old(currentNote)
      ensures !IsBlank(old(currentNote)) ==>
        |notes| == |old(notes)| + 1 && notes[..|old(notes)|] == old(notes) &&
        notes[|old(notes)|] == ClientNote(now, old(currentNote), nowLocale) &&
        currentNote == ""
    {
      if Trim(currentNote) != "" {
        notes := notes + [ClientNote(now, currentNote, nowLocale)];
        currentNote := "";
      }
    }

    /** Keeps exactly the notes with another id, in order; the draft is
        untouched. */
    method DeleteNote(id: int)
      modifies this
      ensures notes == Remove(old(notes), id) && currentNote == old(currentNote)
      ensures forall n :: n in notes <==> n in old(notes) && n.id != id
      ensures (forall j :: 0 <= j < |old(notes)| ==> old(notes)[j].id != id) ==> notes == old(notes)
    {
      ghost var before := notes;
      notes := Remove(notes, id);
      forall n
        ensures n in notes <==> n in before && n.id != id
      {
        RemoveMembers(before, id, n);
      }
      if forall j :: 0 <= j < |before| ==> before[j].id != id {
        RemoveAbsent(before, id);
      }
    }
  }
}
