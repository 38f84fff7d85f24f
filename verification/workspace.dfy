/**
 * The organiser's four module variables (`sections`, `currentSection`,
 * `nextId`, `sectionCounter`) as one object, and the handlers that change
 * them. `currentSection` is an alias of an element of `sections`; here it is
 * the id of that element, which always names the first section carrying it.
 */
module Organiser {
  import opened Wrappers
  import opened Text
  import opened Store
  import opened Naming
  import opened Grouping
  import opened NotesView
  import opened Persistence

  /** What the context menu was opened on: `contextTarget`. */
  datatype Target = SectionItem(id: int) | NoteItem(id: int)

  /** What `renderNotesDisplay` leaves on the page. */
  datatype Display = NothingSelected | Throws | Shows(groups: seq<Group>)

  class Workspace {
    var sections: seq<Section>
    var selected: Option<int>
    var nextId: int
    var sectionCounter: int

    /** The alias `currentSection` points into `sections`, or is `null`. */
    predicate Valid()
      reads this
    {
      SelectionPresent(sections, selected)
    }

    /** Every id handed out is below `nextId` and is used once. */
    predicate Fresh()
      reads this
    {
      FreshIds(sections, nextId)
    }

    function Snapshot(): State
      reads this
    {
      State(sections, nextId, sectionCounter, selected)
    }

    /** The selected section's position, when there is one. */
    function SelectedIndex(): (i: nat)
      requires Valid() && selected.Some?
      reads this
      ensures i < |sections| && sections[i].id == selected.value
    {
      SectionIndex(sections, selected.value).value
    }

    /** The state when the page loads. */
    constructor ()
      ensures Valid() && Fresh()
      ensures sections == [] && selected == None && nextId == 1 && sectionCounter == 1
    {
      sections := [];
      selected := None;
      nextId := 1;
      sectionCounter := 1;
    }

    /**
     * `showAddSectionModal`: the first name "セクション{k}", counting up from
     * `sectionCounter`, that no section carries.
     */
    method SuggestSectionName() returns (name: string, k: int)
      ensures sectionCounter <= k <= sectionCounter + |sections|
      ensures name == SuggestedName(k) && name !in Names(sections)
      ensures forall j :: sectionCounter <= j < k ==> SuggestedName(j) in Names(sections)
    {
      name, k := SuggestName(Names(sections), sectionCounter);
    }

    /**
     * `addSection`: a name that trims to nothing changes nothing; otherwise a
     * section with the next id, the trimmed name and no notes goes at the end,
     * and the counter moves past the number the name carries.
     */
    method AddSection(input: string) returns (added: bool)
      requires Valid()
      modifies this
      ensures Valid()
      ensures added <==> Trim(input) != []
      ensures added ==> sections == old(sections) + [Section(old(nextId), Trim(input), [])]
      ensures added ==> nextId == old(nextId) + 1
      ensures added ==> sectionCounter == CounterAfter(old(sectionCounter), Trim(input))
      ensures !added ==> sections == old(sections) && nextId == old(nextId) && sectionCounter == old(sectionCounter)
      ensures selected == old(selected)
      ensures old(Fresh()) ==> Fresh()
    {
      var name := Trim(input);
      if name == [] {
        return false;
      }
      AppendSection(name);
      sectionCounter := CounterAfter(sectionCounter, name);
      return true;
    }

    /** The `push` of `addSection`: a section with the next id, the name and no notes goes last. */
    method AppendSection(name: string)
      requires Valid()
      modifies this
      ensures Valid()
      ensures sections == old(sections) + [Section(old(nextId), name, [])]
      ensures nextId == old(nextId) + 1
      ensures selected == old(selected) && sectionCounter == old(sectionCounter)
      ensures old(Fresh()) ==> Fresh()
    {
      ghost var wasFresh := Fresh();
      var section := Section(nextId, name, []);
      if wasFresh {
        AddSectionKeepsFresh(sections, nextId, name);
      }
      if selected.Some? {
        SectionIndexAppend(sections, section, selected.value);
      }
      nextId := nextId + 1;
      sections := sections + [section];
    }

    /** `deleteSection`: drops every section with the id and forgets the selection if it was one of them. */
    method DeleteSection(id: int)
      requires Valid()
      modifies this
      ensures Valid()
      ensures sections == WithoutSection(old(sections), id)
      ensures selected == if old(selected) == Some(id) then None else old(selected)
      ensures nextId == old(nextId) && sectionCounter == old(sectionCounter)
      ensures old(Fresh()) ==> Fresh()
    {
      ghost var wasFresh := Fresh();
      if wasFresh {
        DeleteSectionKeepsFresh(sections, nextId, id);
      }
      if selected.Some? && selected.value != id {
        SelectionSurvivesDelete(sections, id, selected.value);
      }
      sections := WithoutSection(sections, id);
      if selected == Some(id) {
        selected := None;
      }
    }

    /**
     * `selectSection`: selects the first section with the id. For an id no
     * section carries, `currentSection` becomes `undefined` (no selection)
     * and the handler then throws.
     */
    method SelectSection(id: int) returns (found: bool)
      modifies this
      ensures Valid()
      ensures found <==> SectionIndex(sections, id).Some?
      ensures selected == if found then Some(id) else None
      ensures sections == old(sections) && nextId == old(nextId) && sectionCounter == old(sectionCounter)
    {
      found := SectionIndex(sections, id).Some?;
      selected := if found then Some(id) else None;
    }

    /** `backToSections`: no section is selected. */
    method BackToSections()
      modifies this
      ensures Valid()
      ensures selected == None
      ensures sections == old(sections) && nextId == old(nextId) && sectionCounter == old(sectionCounter)
    {
      selected := None;
    }

    /**
     * `addNote`: with a selection and a category and content that do not trim
     * to nothing, a note with the next id, the trimmed texts and the time
     * `now` goes first in the selected section; otherwise nothing changes.
     */
    method AddNote(categoryInput: string, contentInput: string, now: int) returns (added: bool)
      requires Valid()
      modifies this
      ensures Valid()
      ensures added <==> Trim(categoryInput) != [] && Trim(contentInput) != [] && old(selected).Some?
      ensures added ==>
        var i := SectionIndex(old(sections), old(selected).value).value;
        var note := Note(old(nextId), Trim(categoryInput), Trim(contentInput), now);
        && sections == old(sections)[i := old(sections)[i].(notes := [note] + old(sections)[i].notes)]
        && sections[i].notes[0] == note
        && nextId == old(nextId) + 1
      ensures !added ==> sections == old(sections) && nextId == old(nextId)
      ensures selected == old(selected) && sectionCounter == old(sectionCounter)
      ensures old(Fresh()) ==> Fresh()
    {
      var category := Trim(categoryInput);
      var content := Trim(contentInput);
      if category == [] || content == [] || selected.None? {
        return false;
      }
      PrependNote(category, content, now);
      return true;
    }

    /** The `unshift` of `addNote`: a note with the next id goes first in the selected section. */
    method PrependNote(category: string, content: string, now: int)
      requires Valid() && selected.Some?
      modifies this
      ensures Valid()
      ensures
        var i := SectionIndex(old(sections), old(selected).value).value;
        sections == old(sections)[i := old(sections)[i].(notes := [Note(old(nextId), category, content, now)] + old(sections)[i].notes)]
      ensures nextId == old(nextId) + 1
      ensures selected == old(selected) && sectionCounter == old(sectionCounter)
      ensures old(Fresh()) ==> Fresh()
    {
      var i := SelectedIndex();
      var note := Note(nextId, category, content, now);
      var section := sections[i].(notes := [note] + sections[i].notes);
      ghost var wasFresh := Fresh();
      if wasFresh {
        AddNoteKeepsFresh(sections, nextId, i, note);
      }
      SectionIndexUpdate(sections, i, section, selected.value);
      nextId := nextId + 1;
      sections := sections[i := section];
    }

    /** `deleteNote`: with a selection, drops the selected section's notes with the id; otherwise nothing changes. */
    method DeleteNote(id: int)
      requires Valid()
      modifies this
      ensures Valid()
      ensures old(selected).None? ==> sections == old(sections)
      ensures old(selected).Some? ==>
        var i := SectionIndex(old(sections), old(selected).value).value;
        sections == old(sections)[i := old(sections)[i].(notes := WithoutNote(old(sections)[i].notes, id))]
      ensures selected == old(selected) && nextId == old(nextId) && sectionCounter == old(sectionCounter)
      ensures old(Fresh()) ==> Fresh()
    {
      if selected.None? {
        return;
      }
      var i := SelectedIndex();
      var section := sections[i].(notes := WithoutNote(sections[i].notes, id));
      ghost var wasFresh := Fresh();
      if wasFresh {
        DeleteNoteKeepsFresh(sections, nextId, i, id);
      }
      SectionIndexUpdate(sections, i, section, selected.value);
      sections := sections[i := section];
    }

    /** `deleteCurrentItem`: deletes what the context menu was opened on, if anything. */
    method DeleteItem(target: Option<Target>)
      requires Valid()
      modifies this
      ensures Valid()
      ensures target.None? ==> sections == old(sections) && selected == old(selected)
      ensures target.Some? && target.value.SectionItem? ==>
        sections == WithoutSection(old(sections), target.value.id)
        && selected == if old(selected) == Some(target.value.id) then None else old(selected)
      ensures target.Some? && target.value.NoteItem? ==> selected == old(selected)
      ensures target.Some? && target.value.NoteItem? && old(selected).None? ==> sections == old(sections)
      ensures target.Some? && target.value.NoteItem? && old(selected).Some? ==>
        var i := SectionIndex(old(sections), old(selected).value).value;
        sections == old(sections)[i := old(sections)[i].(notes := WithoutNote(old(sections)[i].notes, target.value.id))]
      ensures nextId == old(nextId) && sectionCounter == old(sectionCounter)
      ensures old(Fresh()) ==> Fresh()
    {
      if target.None? {
        return;
      }
      match target.value
      case SectionItem(id) => DeleteSection(id);
      case NoteItem(id) => DeleteNote(id);
    }

    /**
     * `renderNotesDisplay`: nothing without a selection; otherwise the
     * selected section's notes grouped by category, or a thrown error when a
     * category names an inherited property. The sections are not changed:
     * the sort works on the dictionary's own arrays.
     */
    method NotesDisplay() returns (d: Display)
      requires Valid()
      ensures selected.None? ==> d == NothingSelected
      ensures selected.Some? ==> !d.NothingSelected?
      ensures selected.Some? ==> (d.Throws? <==> HasInheritedCategory(sections[SelectedIndex()].notes))
      ensures d.Shows? ==> selected.Some? && d.groups == Grouped(sections[SelectedIndex()].notes)
    {
      if selected.None? {
        return NothingSelected;
      }
      var r := GroupNotes(sections[SelectedIndex()].notes);
      if r.None? {
        return Throws;
      }
      return Shows(r.value);
    }

    /** `downloadData`: the document written to the file. */
    method Save() returns (doc: Document)
      ensures doc == Encode(Snapshot())
      ensures Decode(doc) == Snapshot() <== nextId != 0 && sectionCounter != 0 && Valid() && selected != Some(0)
    {
      doc := Encode(Snapshot());
      if nextId != 0 && sectionCounter != 0 && Valid() && selected != Some(0) {
        DecodeEncode(Snapshot());
      }
    }

    /**
     * `uploadData` once the file is read: a parse error or a `null` document
     * throws before any variable is assigned; any other document replaces the
     * whole state by its decoding.
     */
    method Load(p: Parsed)
      requires Valid()
      modifies this
      ensures Valid()
      ensures p.Value? ==> Snapshot() == Decode(p.doc)
      ensures !p.Value? ==> Snapshot() == old(Snapshot())
    {
      if p.Value? {
        var st := Decode(p.doc);
        sections, nextId, sectionCounter, selected := st.sections, st.nextId, st.sectionCounter, st.selected;
      }
    }
  }
}
