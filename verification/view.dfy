/**
 * The loops of `renderNotesDisplay` that fill the category dictionary and
 * list it, proved to build the view `Grouping` defines.
 */
module NotesView {
  import opened Wrappers
  import opened Store
  import opened Grouping

  /**
   * The first loop of `renderNotesDisplay`: files each note under its category
   * in scan order. A category that names an inherited property finds a
   * function or object there, and `push` throws: `ok` is false.
   */
  method ScanCategories(ns: seq<Note>) returns (ok: bool, order: seq<string>, buckets: map<string, seq<Note>>)
    ensures ok <==> !HasInheritedCategory(ns)
    ensures ok ==> order == FirstSeen(ns)
    ensures ok ==> forall c :: c in buckets <==> c in order
    ensures ok ==> forall c :: c in buckets ==> buckets[c] == InCategory(ns, c)
  {
    order, buckets := [], map[];
    var i := 0;
    ScannedNone(ns);
    while i < |ns|
      invariant 0 <= i <= |ns|
      invariant Scanned(ns, i, order, buckets)
      invariant forall j :: 0 <= j < i ==> !IsInheritedKey(ns[j].category)
    {
      var n := ns[i];
      var c := n.category;
      if IsInheritedKey(c) {
        assert IsInheritedKey(ns[i].category);
        return false, order, buckets;
      }
      assert !IsInheritedKey(ns[i].category);
      order, buckets := FileNote(ns, i, n, order, buckets);
      i := i + 1;
    }
    ScannedAll(ns, order, buckets);
    return true, order, buckets;
  }

  /**
   * One step of that loop for a category with no inherited name: a category
   * not yet in the dictionary gets an empty list, added last to the key
   * order, and the note is pushed onto its category's list.
   */
  method FileNote(ghost ns: seq<Note>, ghost i: nat, n: Note, order: seq<string>, buckets: map<string, seq<Note>>)
    returns (order': seq<string>, buckets': map<string, seq<Note>>)
    requires i < |ns| && ns[i] == n && Scanned(ns, i, order, buckets)
    ensures Scanned(ns, i + 1, order', buckets')
  {
    var c := n.category;
    var bucket := if c in buckets then buckets[c] else [];
    order' := if c in buckets then order else order + [c];
    buckets' := buckets[c := bucket + [n]];
    ScanAdvance(ns, i, order, buckets, order', buckets');
  }

  /**
   * The second loop of `renderNotesDisplay`: one group per dictionary key in
   * `Object.keys` order, its notes sorted newest first.
   */
  method ListGroups(ghost ns: seq<Note>, order: seq<string>, buckets: map<string, seq<Note>>) returns (groups: seq<Group>)
    requires forall c :: c in buckets <==> c in order
    requires forall c :: c in buckets ==> buckets[c] == InCategory(ns, c)
    ensures groups == GroupsOf(ns, ObjectKeys(order))
  {
    var keys := ObjectKeys(order);
    ObjectKeysSameKeys(order);
    groups := [];
    var k := 0;
    while k < |keys|
      invariant 0 <= k <= |keys|
      invariant groups == GroupsOf(ns, keys[..k])
    {
      var c := keys[k];
      assert c in order;
      GroupsOfSnoc(ns, keys, k);
      groups := groups + [Group(c, SortNewestFirst(buckets[c]))];
      k := k + 1;
    }
    assert keys[..k] == keys;
  }

  /**
   * `renderNotesDisplay` on the selected section's notes: the groups it shows,
   * in `Object.keys` order, each sorted newest first; None when the scan throws.
   */
  method GroupNotes(ns: seq<Note>) returns (r: Option<seq<Group>>)
    ensures r.None? <==> HasInheritedCategory(ns)
    ensures r.Some? ==> r.value == Grouped(ns)
  {
    var ok, order, buckets := ScanCategories(ns);
    if !ok {
      return None;
    }
    var groups := ListGroups(ns, order, buckets);
    return Some(groups);
  }
}
