/**
 * The saved file at record level: the document `downloadData` writes and the
 * defaulting `uploadData` applies to a parsed document. Text rendering and
 * parsing of JSON are not part of this model.
 */
module Persistence {
  import opened Wrappers
  import opened Store

  /**
   * The four fields of a parsed `appData`. None stands for a field that is
   * missing or holds a falsy value other than a number (`null`, `false`,
   * `""`); a number field can hold any integer, 0 included.
   */
  datatype Document = Document(sections: Option<seq<Section>>, nextId: Option<int>,
                               sectionCounter: Option<int>, currentSection: Option<int>)

  /**
   * What `JSON.parse` gives: a syntax error, the literal `null`, or a value
   * whose fields are read. A value other than an object (a number, a string)
   * has no such fields and reads as `Document(None, None, None, None)`.
   */
  datatype Parsed = Malformed | JsonNull | Value(doc: Document)

  /** The document `downloadData` saves: the state, with the selection as its id or `null`. */
  function Encode(st: State): (d: Document)
    ensures d.sections == Some(st.sections)
    ensures d.nextId == Some(st.nextId) && d.sectionCounter == Some(st.sectionCounter)
    ensures d.currentSection == st.selected
  {
    Document(Some(st.sections), Some(st.nextId), Some(st.sectionCounter), st.selected)
  }

  /** `x || 1` on a number field: a missing field and 0 both give 1. */
  function OrOne(x: Option<int>): (r: int)
    ensures r != 0
    ensures x.Some? && x.value != 0 ==> r == x.value
    ensures x.None? || x.value == 0 ==> r == 1
  {
    if x.Some? && x.value != 0 then x.value else 1
  }

  /**
   * The state `uploadData` installs from a parsed document: missing sections
   * become none, missing or zero counters become 1, and the selection is
   * the first section whose id is the saved one, if the saved id is present,
   * non-zero and found.
   */
  function Decode(d: Document): (st: State)
    ensures st.sections == if d.sections.Some? then d.sections.value else []
    ensures st.nextId != 0 && st.sectionCounter != 0
    ensures d.nextId.Some? && d.nextId.value != 0 ==> st.nextId == d.nextId.value
    ensures d.sectionCounter.Some? && d.sectionCounter.value != 0 ==> st.sectionCounter == d.sectionCounter.value
    ensures d.nextId.None? || d.nextId.value == 0 ==> st.nextId == 1
    ensures d.sectionCounter.None? || d.sectionCounter.value == 0 ==> st.sectionCounter == 1
    ensures SelectionPresent(st.sections, st.selected)
    ensures st.selected.Some? <==> d.currentSection.Some? && d.currentSection.value != 0
                                   && SectionIndex(st.sections, d.currentSection.value).Some?
    ensures st.selected.Some? ==> st.selected == d.currentSection
  {
    var sections := if d.sections.Some? then d.sections.value else [];
    var selected :=
      if d.currentSection.Some? && d.currentSection.value != 0 && SectionIndex(sections, d.currentSection.value).Some?
      then d.currentSection else None;
    State(sections, OrOne(d.nextId), OrOne(d.sectionCounter), selected)
  }

  /**
   * Loading a saved file gives back the state it was saved from, as long as
   * the counters and the selected id are not 0 (which `||` and the truthiness
   * test read as missing) and the selection is present.
   */
  lemma DecodeEncode(st: State)
    requires st.nextId != 0 && st.sectionCounter != 0
    requires SelectionPresent(st.sections, st.selected)
    requires st.selected.Some? ==> st.selected.value != 0
    ensures Decode(Encode(st)) == st
  {
  }

  /** A section whose id is 0 cannot stay selected through a save and a load. */
  lemma ZeroSelectionLost(st: State)
    requires st.selected == Some(0)
    ensures Decode(Encode(st)).selected == None
  {
  }

  /** Any loaded state survives a save and a second load unchanged. */
  lemma EncodeDecodeEncode(d: Document)
    ensures Decode(Encode(Decode(d))) == Decode(d)
  {
    var st := Decode(d);
    DecodeEncode(st);
  }
}
