/**
 * The organiser's records and the pure operations on them: the filters that
 * `deleteSection` and `deleteNote` apply, the `find` that `selectSection` and
 * `uploadData` use, and the identifier invariant that `nextId++` keeps.
 */
module Store {
  import opened Wrappers

  /** A note; `date` is its creation time in milliseconds since the epoch. */
  datatype Note = Note(id: int, category: string, content: string, date: int)

  /** A section and its notes, newest first. */
  datatype Section = Section(id: int, name: string, notes: seq<Note>)

  /**
   * The four module variables of the organiser. `selected` is the id of the
   * section `currentSection` refers to, or None for `null`/`undefined`.
   */
  datatype State = State(sections: seq<Section>, nextId: int, sectionCounter: int, selected: Option<int>)

  // ------------------------------------------------------------------ lookup

  /** `sections.find(s => s.id === id)`, as an index: the first section with that id. */
  function SectionIndex(ss: seq<Section>, id: int): (r: Option<nat>)
    ensures r.Some? ==> r.value < |ss| && ss[r.value].id == id
    ensures r.Some? ==> forall j :: 0 <= j < r.value ==> ss[j].id != id
    ensures r.None? <==> forall j :: 0 <= j < |ss| ==> ss[j].id != id
  {
    if ss == [] then None
    else if ss[0].id == id then Some(0)
    else match SectionIndex(ss[1..], id)
      case None => None
      case Some(i) => Some(i + 1)
  }

  /** Appending a section does not change where an id is first found. */
  lemma {:induction false} SectionIndexAppend(ss: seq<Section>, s: Section, id: int)
    requires SectionIndex(ss, id).Some?
    ensures SectionIndex(ss + [s], id) == SectionIndex(ss, id)
  {
    if ss[0].id != id {
      assert (ss + [s])[1..] == ss[1..] + [s];
      SectionIndexAppend(ss[1..], s, id);
    }
  }

  /** Replacing a section by one with the same id does not change where any id is first found. */
  lemma SectionIndexUpdate(ss: seq<Section>, i: nat, s: Section, id: int)
    requires i < |ss| && s.id == ss[i].id
    ensures SectionIndex(ss[i := s], id) == SectionIndex(ss, id)
  {
    var t := ss[i := s];
    assert forall j :: 0 <= j < |ss| ==> t[j].id == ss[j].id;
    SectionIndexSameIds(ss, t, id);
  }

  lemma {:induction false} SectionIndexSameIds(ss: seq<Section>, t: seq<Section>, id: int)
    requires |ss| == |t| && forall j :: 0 <= j < |ss| ==> t[j].id == ss[j].id
    ensures SectionIndex(t, id) == SectionIndex(ss, id)
  {
    if ss != [] && ss[0].id != id {
      SectionIndexSameIds(ss[1..], t[1..], id);
    }
  }

  /** The selection refers to a section that is present, as the alias `currentSection` always does. */
  predicate SelectionPresent(ss: seq<Section>, selected: Option<int>) {
    selected.None? || SectionIndex(ss, selected.value).Some?
  }

  function Names(ss: seq<Section>): (r: seq<string>)
    ensures |r| == |ss| && forall i :: 0 <= i < |ss| ==> r[i] == ss[i].name
  {
    seq(|ss|, i requires 0 <= i < |ss| => ss[i].name)
  }

  // ----------------------------------------------------------------- filters

  /** `sections.filter(s => s.id !== id)`. */
  function WithoutSection(ss: seq<Section>, id: int): (r: seq<Section>)
    ensures |r| <= |ss|
  {
    if ss == [] then [] else (if ss[0].id != id then [ss[0]] else []) + WithoutSection(ss[1..], id)
  }

  /** `notes.filter(n => n.id !== id)`. */
  function WithoutNote(ns: seq<Note>, id: int): (r: seq<Note>)
    ensures |r| <= |ns|
  {
    if ns == [] then [] else (if ns[0].id != id then [ns[0]] else []) + WithoutNote(ns[1..], id)
  }

  /** The filter keeps exactly the sections whose id differs. */
  lemma {:induction false} WithoutSectionMember(ss: seq<Section>, id: int, s: Section)
    ensures s in WithoutSection(ss, id) <==> s in ss && s.id != id
  {
    if ss != [] {
      WithoutSectionMember(ss[1..], id, s);
      assert ss == [ss[0]] + ss[1..];
    }
  }

  /** The filter keeps exactly the notes whose id differs. */
  lemma {:induction false} WithoutNoteMember(ns: seq<Note>, id: int, n: Note)
    ensures n in WithoutNote(ns, id) <==> n in ns && n.id != id
  {
    if ns != [] {
      WithoutNoteMember(ns[1..], id, n);
      assert ns == [ns[0]] + ns[1..];
    }
  }

  /** Filtering a concatenation filters each part and keeps them in order. */
  lemma {:induction false} WithoutSectionAppend(a: seq<Section>, b: seq<Section>, id: int)
    ensures WithoutSection(a + b, id) == WithoutSection(a, id) + WithoutSection(b, id)
  {
    if a == [] {
      assert a + b == b;
    } else {
      assert (a + b)[0] == a[0];
      assert (a + b)[1..] == a[1..] + b;
      WithoutSectionAppend(a[1..], b, id);
      var h := if a[0].id != id then [a[0]] else [];
      assert WithoutSection(a + b, id) == h + WithoutSection(a[1..] + b, id);
    }
  }

  lemma {:induction false} WithoutNoteAppend(a: seq<Note>, b: seq<Note>, id: int)
    ensures WithoutNote(a + b, id) == WithoutNote(a, id) + WithoutNote(b, id)
  {
    if a == [] {
      assert a + b == b;
    } else {
      assert (a + b)[0] == a[0];
      assert (a + b)[1..] == a[1..] + b;
      WithoutNoteAppend(a[1..], b, id);
      var h := if a[0].id != id then [a[0]] else [];
      assert WithoutNote(a + b, id) == h + WithoutNote(a[1..] + b, id);
    }
  }

  /** Removing an id that no section carries changes nothing. */
  lemma {:induction false} WithoutSectionAbsent(ss: seq<Section>, id: int)
    requires forall j :: 0 <= j < |ss| ==> ss[j].id != id
    ensures WithoutSection(ss, id) == ss
  {
    if ss != [] {
      WithoutSectionAbsent(ss[1..], id);
    }
  }

  lemma {:induction false} WithoutNoteAbsent(ns: seq<Note>, id: int)
    requires forall j :: 0 <= j < |ns| ==> ns[j].id != id
    ensures WithoutNote(ns, id) == ns
  {
    if ns != [] {
      WithoutNoteAbsent(ns[1..], id);
    }
  }

  /** Deleting a section twice is deleting it once. */
  lemma WithoutSectionIdempotent(ss: seq<Section>, id: int)
    ensures WithoutSection(WithoutSection(ss, id), id) == WithoutSection(ss, id)
  {
    var r := WithoutSection(ss, id);
    forall j | 0 <= j < |r| ensures r[j].id != id {
      WithoutSectionMember(ss, id, r[j]);
    }
    WithoutSectionAbsent(r, id);
  }

  /** Deleting a note twice is deleting it once. */
  lemma WithoutNoteIdempotent(ns: seq<Note>, id: int)
    ensures WithoutNote(WithoutNote(ns, id), id) == WithoutNote(ns, id)
  {
    var r := WithoutNote(ns, id);
    forall j | 0 <= j < |r| ensures r[j].id != id {
      WithoutNoteMember(ns, id, r[j]);
    }
    WithoutNoteAbsent(r, id);
  }

  /**
   * Deleting another section leaves the first section with the selected id
   * the very same section: the alias `currentSection` still points into the
   * filtered array.
   */
  lemma {:induction false} SelectionSurvivesDelete(ss: seq<Section>, id: int, sel: int)
    requires sel != id && SectionIndex(ss, sel).Some?
    ensures SectionIndex(WithoutSection(ss, id), sel).Some?
    ensures WithoutSection(ss, id)[SectionIndex(WithoutSection(ss, id), sel).value] == ss[SectionIndex(ss, sel).value]
  {
    var w, rest := WithoutSection(ss, id), WithoutSection(ss[1..], id);
    if ss[0].id == sel {
      assert w == [ss[0]] + rest;
    } else {
      SelectionSurvivesDelete(ss[1..], id, sel);
      var k := SectionIndex(rest, sel).value;
      assert SectionIndex(ss, sel).value == SectionIndex(ss[1..], sel).value + 1;
      if ss[0].id != id {
        assert w == [ss[0]] + rest;
        assert SectionIndex(w, sel) == Some(k + 1);
      } else {
        assert w == rest;
      }
    }
  }

  // -------------------------------------------------------------- identifiers

  function NoteIds(ns: seq<Note>): seq<int> {
    if ns == [] then [] else [ns[0].id] + NoteIds(ns[1..])
  }

  lemma {:induction false} NoteIdsAppend(a: seq<Note>, b: seq<Note>)
    ensures NoteIds(a + b) == NoteIds(a) + NoteIds(b)
  {
    if a == [] {
      assert a + b == b;
    } else {
      assert (a + b)[0] == a[0];
      assert (a + b)[1..] == a[1..] + b;
      NoteIdsAppend(a[1..], b);
    }
  }

  /** Every id in use: each section's id followed by its notes' ids. */
  function Ids(ss: seq<Section>): seq<int> {
    if ss == [] then [] else [ss[0].id] + NoteIds(ss[0].notes) + Ids(ss[1..])
  }

  /** The identifier invariant: every id in use is below `nextId`, and no id is used twice. */
  predicate FreshIds(ss: seq<Section>, nextId: int) {
    var m := multiset(Ids(ss));
    (forall x :: x in m ==> x < nextId) && (forall x :: x in m ==> m[x] == 1)
  }

  lemma {:induction false} IdsAppend(a: seq<Section>, b: seq<Section>)
    ensures Ids(a + b) == Ids(a) + Ids(b)
  {
    if a == [] {
      assert a + b == b;
    } else {
      assert (a + b)[0] == a[0];
      assert (a + b)[1..] == a[1..] + b;
      IdsAppend(a[1..], b);
    }
  }

  lemma {:induction false} WithoutSectionIds(ss: seq<Section>, id: int)
    ensures multiset(Ids(WithoutSection(ss, id))) <= multiset(Ids(ss))
  {
    if ss != [] {
      WithoutSectionIds(ss[1..], id);
      IdsAppend(if ss[0].id != id then [ss[0]] else [], WithoutSection(ss[1..], id));
      assert Ids([ss[0]]) == [ss[0].id] + NoteIds(ss[0].notes);
    }
  }

  lemma {:induction false} WithoutNoteIds(ns: seq<Note>, id: int)
    ensures multiset(NoteIds(WithoutNote(ns, id))) <= multiset(NoteIds(ns))
  {
    if ns != [] {
      WithoutNoteIds(ns[1..], id);
      var head := if ns[0].id != id then [ns[0]] else [];
      NoteIdsAppend(head, WithoutNote(ns[1..], id));
    }
  }

  /** The ids in use split around one section: those before it, its own, its notes', those after it. */
  lemma {:induction false} IdsAround(ss: seq<Section>, i: nat)
    requires i < |ss|
    ensures Ids(ss) == Ids(ss[..i]) + ([ss[i].id] + NoteIds(ss[i].notes)) + Ids(ss[i + 1..])
  {
    if i == 0 {
      assert ss[..0] == [];
    } else {
      var tail, head := ss[1..], [ss[0].id] + NoteIds(ss[0].notes);
      IdsAround(tail, i - 1);
      assert tail[..i - 1] == ss[..i][1..];
      assert tail[i - 1] == ss[i] && tail[i..] == ss[i + 1..];
      assert ss[..i][0] == ss[0];
      assert Ids(ss[..i]) == head + Ids(tail[..i - 1]);
    }
  }

  /** Adding the id `nextId` to a set of fresh ids keeps them fresh, with the counter raised by one. */
  lemma FreshGrow(m: multiset<int>, m': multiset<int>, nextId: int)
    requires (forall x :: x in m ==> x < nextId) && (forall x :: x in m ==> m[x] == 1)
    requires m' == m + multiset{nextId}
    ensures (forall x :: x in m' ==> x < nextId + 1) && (forall x :: x in m' ==> m'[x] == 1)
  {
    assert nextId !in m;
  }

  /** Appending a section with the next id and no notes keeps the invariant, with the counter raised by one. */
  lemma AddSectionKeepsFresh(ss: seq<Section>, nextId: int, name: string)
    requires FreshIds(ss, nextId)
    ensures FreshIds(ss + [Section(nextId, name, [])], nextId + 1)
  {
    var added := [Section(nextId, name, [])];
    IdsAppend(ss, added);
    assert Ids(added) == [nextId] + NoteIds([]) + Ids([]);
    FreshGrow(multiset(Ids(ss)), multiset(Ids(ss + added)), nextId);
  }

  /** Putting a note with the next id at the head of one section's notes keeps the invariant, with the counter raised by one. */
  lemma AddNoteKeepsFresh(ss: seq<Section>, nextId: int, i: nat, n: Note)
    requires i < |ss| && FreshIds(ss, nextId) && n.id == nextId
    ensures FreshIds(ss[i := ss[i].(notes := [n] + ss[i].notes)], nextId + 1)
  {
    var ns := [n] + ss[i].notes;
    var t := ss[i := ss[i].(notes := ns)];
    IdsAround(ss, i);
    IdsAround(t, i);
    assert t[..i] == ss[..i] && t[i + 1..] == ss[i + 1..] && t[i] == ss[i].(notes := ns);
    assert ns[0] == n && ns[1..] == ss[i].notes;
    var before, after := [ss[i].id] + NoteIds(ss[i].notes), [ss[i].id] + NoteIds(ns);
    assert multiset(after) == multiset(before) + multiset{n.id};
    var a, c := Ids(ss[..i]), Ids(ss[i + 1..]);
    assert multiset(Ids(t)) == multiset(a) + multiset(after) + multiset(c);
    assert multiset(Ids(ss)) == multiset(a) + multiset(before) + multiset(c);
    FreshGrow(multiset(Ids(ss)), multiset(Ids(t)), nextId);
  }

  /** Deleting sections keeps the invariant. */
  lemma DeleteSectionKeepsFresh(ss: seq<Section>, nextId: int, id: int)
    requires FreshIds(ss, nextId)
    ensures FreshIds(WithoutSection(ss, id), nextId)
  {
    WithoutSectionIds(ss, id);
  }

  /** Deleting notes of one section keeps the invariant. */
  lemma DeleteNoteKeepsFresh(ss: seq<Section>, nextId: int, i: nat, id: int)
    requires i < |ss| && FreshIds(ss, nextId)
    ensures FreshIds(ss[i := ss[i].(notes := WithoutNote(ss[i].notes, id))], nextId)
  {
    var ns := WithoutNote(ss[i].notes, id);
    var t := ss[i := ss[i].(notes := ns)];
    IdsAround(ss, i);
    IdsAround(t, i);
    assert t[..i] == ss[..i] && t[i + 1..] == ss[i + 1..];
    WithoutNoteIds(ss[i].notes, id);
    var m, m' := multiset(Ids(ss)), multiset(Ids(t));
    assert m' <= m;
  }
}
