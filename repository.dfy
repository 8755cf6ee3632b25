/** The in-memory note collection the handlers load from and save to the
    notes file: an ordered sequence of `{name, text}` records, searched with
    JavaScript's `find` / `findIndex` by strict equality of names. */
module Repository {

  datatype Option<T> = None | Some(value: T)

  datatype Note = Note(name: string, text: string)

  /** The names of the collection, in stored order. */
  function Names(notes: seq<Note>): (r: seq<string>)
    ensures |r| == |notes|
    ensures forall k :: 0 <= k < |notes| ==> r[k] == notes[k].name
  {
    seq(|notes|, k requires 0 <= k < |notes| => notes[k].name)
  }

  /** At most one note per name. */
  predicate UniqueNames(notes: seq<Note>) {
    forall i, j :: 0 <= i < j < |notes| ==> notes[i].name != notes[j].name
  }

  /** Position `i` holds the first note called `name` (the element that
      `find` returns and whose index `findIndex` returns). */
  predicate IsFirstMatch(notes: seq<Note>, name: string, i: int) {
    0 <= i < |notes| && notes[i].name == name
    && forall j :: 0 <= j < i ==> notes[j].name != name
  }

  /** The position of the first note whose name equals `name` exactly, or
      None where `findIndex` answers -1. */
  function FindIndex(notes: seq<Note>, name: string): (r: Option<nat>)
    ensures r.Some? ==> IsFirstMatch(notes, name, r.value)
    ensures r.None? <==> name !in Names(notes)
  {
    if notes == [] then None
    else if notes[0].name == name then Some(0)
    else match FindIndex(notes[1..], name)
      case None => None
      case Some(i) => Some(i + 1)
  }

  /** `notes.find(note => note.name === name)`: the first note with exactly
      this name (no trimming, case-sensitive), or None. */
  function Lookup(notes: seq<Note>, name: string): (r: Option<Note>)
    ensures r.None? <==> name !in Names(notes)
    ensures r.Some? ==> exists i :: IsFirstMatch(notes, name, i) && r.value == notes[i]
  {
    match FindIndex(notes, name)
    case None => None
    case Some(i) => Some(notes[i])
  }

  /** The update handler's effect on the collection: the first note called
      `name` gets the new text, every other entry stays where and what it was. */
  function SetText(notes: seq<Note>, name: string, text: string): (r: seq<Note>)
    ensures |r| == |notes|
    ensures forall k :: 0 <= k < |r| ==>
      r[k] == if IsFirstMatch(notes, name, k) then Note(name, text) else notes[k]
  {
    match FindIndex(notes, name)
    case None => notes
    case Some(i) => notes[i := notes[i].(text := text)]
  }

  /** The delete handler's effect on the collection: `splice(findIndex(...), 1)`,
      so the first note called `name` disappears and the others close up in
      their old order; without such a note nothing changes. */
  function Remove(notes: seq<Note>, name: string): (r: seq<Note>)
    ensures name !in Names(notes) ==> r == notes
    ensures forall i :: IsFirstMatch(notes, name, i) ==>
      |r| == |notes| - 1
      && (forall k :: 0 <= k < i ==> r[k] == notes[k])
      && (forall k :: i <= k < |r| ==> r[k] == notes[k + 1])
  {
    match FindIndex(notes, name)
    case None => notes
    case Some(i) => notes[..i] + notes[i + 1..]
  }

  /** A lookup only ever finds a note with exactly the requested name. */
  lemma LookupIsExact(notes: seq<Note>, name: string)
    ensures Lookup(notes, name).Some? ==> Lookup(notes, name).value.name == name
  {
  }

  /** Lookups compare names exactly: a stored "todo" is not found under " todo". */
  lemma LookupDoesNotTrim()
    ensures Lookup([Note("todo", "buy milk")], " todo") == None
    ensures Lookup([Note("todo", "buy milk")], "Todo") == None
    ensures Lookup([Note("todo", "buy milk")], "todo") == Some(Note("todo", "buy milk"))
  {
    assert Names([Note("todo", "buy milk")])[0] == "todo";
  }

  // ---- create: push at the end ----

  /** After a push of a fresh name, looking that name up gives the new note,
      and every other name is found as before. */
  lemma {:induction false} LookupAfterAppend(notes: seq<Note>, name: string, text: string, other: string)
    requires name !in Names(notes)
    ensures Lookup(notes + [Note(name, text)], name) == Some(Note(name, text))
    ensures other != name ==> Lookup(notes + [Note(name, text)], other) == Lookup(notes, other)
  {
    var after := notes + [Note(name, text)];
    assert IsFirstMatch(after, name, |notes|) by {
      forall j | 0 <= j < |notes| ensures after[j].name != name {
        assert Names(notes)[j] == notes[j].name;
      }
    }
    FindIndexAt(after, name, |notes|);
    if other != name {
      match FindIndex(notes, other)
      case None =>
        assert other !in Names(after) by {
          forall k | 0 <= k < |after| ensures Names(after)[k] != other {
            if k < |notes| { assert Names(notes)[k] == after[k].name; }
          }
        }
      case Some(i) =>
        FindIndexAt(after, other, i);
    }
  }

  /** FindIndex returns the first match whenever there is one. */
  lemma FindIndexAt(notes: seq<Note>, name: string, i: int)
    requires IsFirstMatch(notes, name, i)
    ensures FindIndex(notes, name) == Some(i)
  {
    assert Names(notes)[i] == name;
  }

  /** A push of a fresh name keeps names unique. */
  lemma AppendKeepsUnique(notes: seq<Note>, name: string, text: string)
    requires UniqueNames(notes) && name !in Names(notes)
    ensures UniqueNames(notes + [Note(name, text)])
  {
    var after := notes + [Note(name, text)];
    forall i, j | 0 <= i < j < |after| ensures after[i].name != after[j].name {
      if j == |notes| {
        assert Names(notes)[i] == notes[i].name;
      }
    }
  }

  // ---- update: assign the text of the first match ----

  /** An update keeps the names, hence their order and their uniqueness. */
  lemma SetTextKeepsNames(notes: seq<Note>, name: string, text: string)
    ensures Names(SetText(notes, name, text)) == Names(notes)
    ensures UniqueNames(notes) ==> UniqueNames(SetText(notes, name, text))
  {
    var r := SetText(notes, name, text);
    assert forall k :: 0 <= k < |r| ==> r[k].name == notes[k].name;
  }

  /** After an update the name looks up the new text, and every other name
      looks up what it did before. */
  lemma {:induction false} LookupAfterSetText(notes: seq<Note>, name: string, text: string, other: string)
    requires name in Names(notes)
    ensures Lookup(SetText(notes, name, text), name) == Some(Note(name, text))
    ensures other != name ==> Lookup(SetText(notes, name, text), other) == Lookup(notes, other)
  {
    var r := SetText(notes, name, text);
    SetTextKeepsNames(notes, name, text);
    var i := FindIndex(notes, name).value;
    assert IsFirstMatch(r, name, i);
    FindIndexAt(r, name, i);
    if other != name {
      match FindIndex(notes, other)
      case None =>
      case Some(j) =>
        assert IsFirstMatch(r, other, j);
        FindIndexAt(r, other, j);
    }
  }

  /** Writing the same text twice is the same as writing it once. */
  lemma SetTextIdempotent(notes: seq<Note>, name: string, text: string)
    ensures SetText(SetText(notes, name, text), name, text) == SetText(notes, name, text)
  {
    var r := SetText(notes, name, text);
    SetTextKeepsNames(notes, name, text);
    match FindIndex(notes, name)
    case None =>
    case Some(i) =>
      assert IsFirstMatch(r, name, i);
      FindIndexAt(r, name, i);
  }

  // ---- delete: findIndex then splice ----

  /** A removal keeps unique names unique. */
  lemma RemoveKeepsUnique(notes: seq<Note>, name: string)
    requires UniqueNames(notes)
    ensures UniqueNames(Remove(notes, name))
  {
    match FindIndex(notes, name)
    case None =>
    case Some(i) =>
      var r := Remove(notes, name);
      forall a, b | 0 <= a < b < |r| ensures r[a].name != r[b].name {
        var a' := if a < i then a else a + 1;
        var b' := if b < i then b else b + 1;
        assert r[a] == notes[a'] && r[b] == notes[b'];
      }
  }

  /** The removal takes exactly one note away: the first match. */
  lemma RemoveMultiset(notes: seq<Note>, name: string, i: int)
    requires IsFirstMatch(notes, name, i)
    ensures multiset(Remove(notes, name)) == multiset(notes) - multiset{notes[i]}
  {
    FindIndexAt(notes, name, i);
    assert Remove(notes, name) == notes[..i] + notes[i + 1..];
    SpliceMultiset(notes, i);
  }

  lemma SpliceMultiset(notes: seq<Note>, i: int)
    requires 0 <= i < |notes|
    ensures multiset(notes[..i] + notes[i + 1..]) == multiset(notes) - multiset{notes[i]}
  {
    var front, back := notes[..i], notes[i + 1..];
    assert notes == front + [notes[i]] + back;
    assert multiset(notes) == multiset(front) + multiset{notes[i]} + multiset(back);
  }

  /** In a collection with unique names, a deleted name is no longer found. */
  lemma RemovedNameIsGone(notes: seq<Note>, name: string)
    requires UniqueNames(notes)
    ensures name !in Names(Remove(notes, name))
    ensures Lookup(Remove(notes, name), name) == None
  {
    var r := Remove(notes, name);
    match FindIndex(notes, name)
    case None =>
    case Some(i) =>
      forall k | 0 <= k < |r| ensures Names(r)[k] != name {
        if k < i { assert r[k] == notes[k]; }
        else { assert r[k] == notes[k + 1]; }
      }
  }

  /** A delete does not disturb the lookup of any other name, whether or not
      names are unique. */
  lemma {:induction false} LookupOtherAfterRemove(notes: seq<Note>, name: string, other: string)
    requires other != name
    ensures Lookup(Remove(notes, name), other) == Lookup(notes, other)
  {
    var r := Remove(notes, name);
    match FindIndex(notes, name)
    case None =>
    case Some(i) =>
      match FindIndex(notes, other)
      case None =>
        forall k | 0 <= k < |r| ensures Names(r)[k] != other {
          var k' := if k < i then k else k + 1;
          assert r[k] == notes[k'] && Names(notes)[k'] == notes[k'].name;
        }
      case Some(j) =>
        var j' := if j < i then j else j - 1;
        forall m | 0 <= m < j' ensures r[m].name != other {
          var m' := if m < i then m else m + 1;
          assert r[m] == notes[m'];
        }
        FindIndexAt(r, other, j');
  }

  /** When a name occurs more than once, a delete removes only its first
      note, and the lookup then finds the next note of that name. */
  lemma LookupAfterRemoveFindsNext(notes: seq<Note>, name: string, i: int, j: int)
    requires IsFirstMatch(notes, name, i) && i < j < |notes| && notes[j].name == name
    requires forall k :: i < k < j ==> notes[k].name != name
    ensures Lookup(Remove(notes, name), name) == Some(notes[j])
  {
    var r := Remove(notes, name);
    assert IsFirstMatch(r, name, j - 1) by {
      forall m | 0 <= m < j - 1 ensures r[m].name != name {
        if m < i { assert r[m] == notes[m]; } else { assert r[m] == notes[m + 1]; }
      }
    }
    FindIndexAt(r, name, j - 1);
  }

  /** Without unique names, a delete removes only the first of two notes with
      the same name, and the second one is found afterwards. */
  lemma RemoveOnlyFirstOfDuplicates()
    ensures Remove([Note("a", "1"), Note("a", "2")], "a") == [Note("a", "2")]
    ensures Lookup(Remove([Note("a", "1"), Note("a", "2")], "a"), "a") == Some(Note("a", "2"))
  {
    FindIndexAt([Note("a", "1"), Note("a", "2")], "a", 0);
    FindIndexAt([Note("a", "2")], "a", 0);
  }

  /** Deleting a note that was just pushed restores the collection: create
      and delete are inverse for a fresh name. */
  lemma RemoveUndoesAppend(notes: seq<Note>, name: string, text: string)
    requires name !in Names(notes)
    ensures Remove(notes + [Note(name, text)], name) == notes
  {
    LookupAfterAppend(notes, name, text, name);
    var after := notes + [Note(name, text)];
    assert IsFirstMatch(after, name, |notes|) by {
      forall j | 0 <= j < |notes| ensures after[j].name != name {
        assert Names(notes)[j] == notes[j].name;
      }
    }
    FindIndexAt(after, name, |notes|);
    assert after[..|notes|] == notes;
  }
}
