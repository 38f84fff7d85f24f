/**
 * The category view `renderNotesDisplay` builds from the selected section's
 * notes: a dictionary from category to notes filled in scan order, listed in
 * `Object.keys` order, each list sorted newest first by the (stable)
 * `Array.prototype.sort`.
 */
module Grouping {
  import opened Wrappers
  import opened Text
  import opened Store

  datatype Group = Group(category: string, notes: seq<Note>)

  predicate Distinct(ks: seq<string>) {
    forall i, j :: 0 <= i < j < |ks| ==> ks[i] != ks[j]
  }

  // ----------------------------------------------------- dictionary keys

  /**
   * The names an empty object literal inherits from `Object.prototype`. Looking
   * one of them up in `{}` gives a function or an object, never an array.
   */
  const InheritedKeys: seq<string> := [
    "constructor", "__proto__", "__defineGetter__", "__defineSetter__", "__lookupGetter__",
    "__lookupSetter__", "hasOwnProperty", "isPrototypeOf", "propertyIsEnumerable", "toString",
    "toLocaleString", "valueOf"
  ]

  /** `k` is one of `ks`, looked up one entry at a time. */
  predicate Listed(k: string, ks: seq<string>) {
    ks != [] && (ks[0] == k || Listed(k, ks[1..]))
  }

  predicate IsInheritedKey(k: string) {
    Listed(k, InheritedKeys)
  }

  /**
   * An array index in the sense of ECMAScript: the canonical decimal form of an
   * integer from 0 to 2^32 - 2. `Object.keys` lists such keys first.
   */
  predicate IsArrayIndexKey(k: string) {
    |k| >= 1 && AllDigits(k) && (k[0] != '0' || |k| == 1) && DigitsValue(k) < 0xFFFF_FFFF
  }

  function KeyValue(k: string): int {
    if AllDigits(k) then DigitsValue(k) else 0
  }

  /** The elements on which `p` is `b`, in their order. */
  function Where<T>(s: seq<T>, p: T -> bool, b: bool): seq<T> {
    if s == [] then []
    else Where(s[..|s| - 1], p, b) + (if p(s[|s| - 1]) == b then [s[|s| - 1]] else [])
  }

  lemma {:induction false} WhereMember<T>(s: seq<T>, p: T -> bool, b: bool, x: T)
    ensures x in Where(s, p, b) <==> x in s && p(x) == b
  {
    if s != [] {
      WhereMember(s[..|s| - 1], p, b, x);
      assert s == s[..|s| - 1] + [s[|s| - 1]];
    }
  }

  lemma {:induction false} WhereSplit<T>(s: seq<T>, p: T -> bool)
    ensures multiset(Where(s, p, true)) + multiset(Where(s, p, false)) == multiset(s)
  {
    if s != [] {
      var init, x := s[..|s| - 1], s[|s| - 1];
      WhereSplit(init, p);
      assert s == init + [x];
      if p(x) {
        assert Where(s, p, true) == Where(init, p, true) + [x];
        assert Where(s, p, false) == Where(init, p, false);
      } else {
        assert Where(s, p, true) == Where(init, p, true);
        assert Where(s, p, false) == Where(init, p, false) + [x];
      }
    }
  }

  lemma {:induction false} WhereAppend<T>(s: seq<T>, t: seq<T>, p: T -> bool, b: bool)
    ensures Where(s + t, p, b) == Where(s, p, b) + Where(t, p, b)
  {
    if t == [] {
      assert s + t == s;
    } else {
      var init, x := t[..|t| - 1], t[|t| - 1];
      WhereAppend(s, init, p, b);
      assert (s + t)[..|s + t| - 1] == s + init;
      assert (s + t)[|s + t| - 1] == x;
      var tail := if p(x) == b then [x] else [];
      assert Where(s + t, p, b) == Where(s + init, p, b) + tail;
      assert Where(t, p, b) == Where(init, p, b) + tail;
    }
  }

  lemma {:induction false} WhereNone<T>(s: seq<T>, p: T -> bool, b: bool)
    requires forall i :: 0 <= i < |s| ==> p(s[i]) != b
    ensures Where(s, p, b) == []
  {
    if s != [] {
      WhereNone(s[..|s| - 1], p, b);
    }
  }

  lemma {:induction false} WhereAll<T>(s: seq<T>, p: T -> bool, b: bool)
    requires forall i :: 0 <= i < |s| ==> p(s[i]) == b
    ensures Where(s, p, b) == s
  {
    if s != [] {
      WhereAll(s[..|s| - 1], p, b);
    }
  }

  lemma WhereOfParts<T>(s: seq<T>, t: seq<T>, p: T -> bool)
    requires forall i :: 0 <= i < |s| ==> p(s[i])
    requires forall i :: 0 <= i < |t| ==> !p(t[i])
    ensures Where(s + t, p, false) == t
  {
    WhereAppend(s, t, p, false);
    WhereNone(s, p, false);
    WhereAll(t, p, false);
  }

  /** The elements on which `p` holds, sorted by `key`, followed by the others in their order. */
  function SplitSort<T(==)>(s: seq<T>, p: T -> bool, key: T -> int): seq<T> {
    SortBy(Where(s, p, true), key) + Where(s, p, false)
  }

  /** Sorting the elements on which `p` holds keeps them apart from the others. */
  lemma SortedParts<T>(s: seq<T>, p: T -> bool, key: T -> int)
    ensures forall i :: 0 <= i < |SortBy(Where(s, p, true), key)| ==> p(SortBy(Where(s, p, true), key)[i])
    ensures forall i :: 0 <= i < |Where(s, p, false)| ==> !p(Where(s, p, false)[i])
  {
    var a, b := SortBy(Where(s, p, true), key), Where(s, p, false);
    forall i | 0 <= i < |a| ensures p(a[i]) {
      assert a[i] in multiset(a);
      WhereMember(s, p, true, a[i]);
    }
    forall i | 0 <= i < |b| ensures !p(b[i]) {
      WhereMember(s, p, false, b[i]);
    }
  }

  /** Every element on which `p` holds comes first, and those come in ascending key order. */
  predicate HoldersFirst<T>(r: seq<T>, p: T -> bool, key: T -> int) {
    forall i, j :: 0 <= i < j < |r| && p(r[j]) ==> p(r[i]) && key(r[i]) <= key(r[j])
  }

  lemma SplitSortOrder<T>(s: seq<T>, p: T -> bool, key: T -> int)
    ensures HoldersFirst(SplitSort(s, p, key), p, key)
    ensures Where(SplitSort(s, p, key), p, false) == Where(s, p, false)
  {
    var a, b := SortBy(Where(s, p, true), key), Where(s, p, false);
    var r := a + b;
    SortedParts(s, p, key);
    forall i, j | 0 <= i < j < |r| && p(r[j]) ensures p(r[i]) && key(r[i]) <= key(r[j]) {
      if j < |a| {
        assert r[i] == a[i] && r[j] == a[j];
      } else {
        assert false;
      }
    }
    WhereOfParts(a, b, p);
  }

  lemma SplitSortPermutes<T>(s: seq<T>, p: T -> bool, key: T -> int)
    ensures multiset(SplitSort(s, p, key)) == multiset(s)
  {
    WhereSplit(s, p);
  }

  /** The keys that are (`index`) or are not (`!index`) array indices, in their order. */
  function KeysWhere(ks: seq<string>, index: bool): seq<string> {
    Where(ks, IsArrayIndexKey, index)
  }

  /** `Object.keys` of a dictionary whose keys were inserted in `order`. */
  function ObjectKeys(order: seq<string>): seq<string> {
    SplitSort(order, IsArrayIndexKey, KeyValue)
  }

  /** A list without repeats counts each of its elements once, and conversely. */
  lemma DistinctCounts(ks: seq<string>)
    ensures Distinct(ks) <==> forall k :: k in multiset(ks) ==> multiset(ks)[k] == 1
  {
    if Distinct(ks) {
      forall k | k in multiset(ks) ensures multiset(ks)[k] == 1 {
        DistinctCountOne(ks, k);
      }
    } else {
      var i, j :| 0 <= i < j < |ks| && ks[i] == ks[j];
      RepeatCountsTwice(ks, i, j);
    }
  }

  lemma DistinctCountOne(ks: seq<string>, k: string)
    requires Distinct(ks) && k in multiset(ks)
    ensures multiset(ks)[k] == 1
  {
    var i :| 0 <= i < |ks| && ks[i] == k;
    assert ks == ks[..i] + [k] + ks[i + 1..];
    assert k !in ks[..i] && k !in ks[i + 1..];
  }

  lemma RepeatCountsTwice(ks: seq<string>, i: nat, j: nat)
    requires i < j < |ks| && ks[i] == ks[j]
    ensures multiset(ks)[ks[j]] >= 2
  {
    var k := ks[j];
    assert ks == ks[..j] + [k] + ks[j + 1..];
    assert ks[..j][i] == k;
    assert multiset(ks) == multiset(ks[..j]) + multiset{k} + multiset(ks[j + 1..]);
    assert multiset(ks[..j])[k] >= 1;
  }

  /**
   * `Object.keys` order: every array-index key before every other key, the
   * array-index keys in ascending numeric order, the other keys in insertion
   * order; no key is lost, added or repeated.
   */
  lemma ObjectKeysOrder(order: seq<string>)
    requires Distinct(order)
    ensures var r := ObjectKeys(order);
      && multiset(r) == multiset(order)
      && Distinct(r)
      && (forall i, j :: 0 <= i < j < |r| && IsArrayIndexKey(r[j]) ==> IsArrayIndexKey(r[i]))
      && (forall i, j :: 0 <= i < j < |r| && IsArrayIndexKey(r[j]) ==> KeyValue(r[i]) <= KeyValue(r[j]))
      && KeysWhere(r, false) == KeysWhere(order, false)
  {
    var index: string -> bool, key: string -> int := IsArrayIndexKey, KeyValue;
    var r := ObjectKeys(order);
    SplitSortPermutes(order, index, key);
    DistinctCounts(order);
    DistinctCounts(r);
    SplitSortOrder(order, index, key);
    forall i, j | 0 <= i < j < |r| && IsArrayIndexKey(r[j])
      ensures IsArrayIndexKey(r[i]) && KeyValue(r[i]) <= KeyValue(r[j])
    {
      assert index(r[j]);
    }
  }

  /** `Object.keys` lists exactly the keys that were inserted. */
  lemma ObjectKeysSameKeys(order: seq<string>)
    ensures forall c :: c in ObjectKeys(order) <==> c in order
  {
    var r := ObjectKeys(order);
    SplitSortPermutes(order, IsArrayIndexKey, KeyValue);
    forall c ensures c in r <==> c in order {
      assert c in r <==> c in multiset(r);
      assert c in order <==> c in multiset(order);
    }
  }

  // ------------------------------------------------------------- scanning

  /** The notes of one category, in stored order: what the dictionary entry collects. */
  function InCategory(ns: seq<Note>, c: string): (r: seq<Note>) {
    if ns == [] then []
    else InCategory(ns[..|ns| - 1], c) + (if ns[|ns| - 1].category == c then [ns[|ns| - 1]] else [])
  }

  lemma {:induction false} InCategoryMember(ns: seq<Note>, c: string, n: Note)
    ensures n in InCategory(ns, c) <==> n in ns && n.category == c
  {
    if ns != [] {
      InCategoryMember(ns[..|ns| - 1], c, n);
      assert ns == ns[..|ns| - 1] + [ns[|ns| - 1]];
    }
  }

  /** The categories in the order the scan first meets them. */
  function FirstSeen(ns: seq<Note>): (r: seq<string>)
    ensures Distinct(r)
  {
    if ns == [] then []
    else
      var p, c := FirstSeen(ns[..|ns| - 1]), ns[|ns| - 1].category;
      if c in p then p else p + [c]
  }

  /** A category is listed exactly when some note carries it. */
  lemma {:induction false} FirstSeenMember(ns: seq<Note>, c: string)
    ensures c in FirstSeen(ns) <==> InCategory(ns, c) != []
  {
    if ns != [] {
      FirstSeenMember(ns[..|ns| - 1], c);
    }
  }

  /** Reading note `i` adds its category to the first-seen order unless it is already there. */
  lemma FirstSeenStep(ns: seq<Note>, i: nat)
    requires i < |ns|
    ensures FirstSeen(ns[..i + 1]) == if ns[i].category in FirstSeen(ns[..i]) then FirstSeen(ns[..i])
                                      else FirstSeen(ns[..i]) + [ns[i].category]
  {
    assert ns[..i + 1][..i] == ns[..i];
  }

  /** Reading note `i` appends it to its own category and to no other. */
  lemma InCategoryStep(ns: seq<Note>, i: nat, c: string)
    requires i < |ns|
    ensures InCategory(ns[..i + 1], c) == InCategory(ns[..i], c) + (if ns[i].category == c then [ns[i]] else [])
  {
    assert ns[..i + 1][..i] == ns[..i];
  }

  /** The categories met in any prefix of the notes are a prefix of the first-seen order. */
  lemma {:induction false} FirstSeenPrefix(ns: seq<Note>, p: nat)
    requires p <= |ns|
    ensures FirstSeen(ns[..p]) <= FirstSeen(ns)
  {
    if p < |ns| {
      var init := ns[..|ns| - 1];
      FirstSeenPrefix(init, p);
      assert init[..p] == ns[..p];
    } else {
      assert ns[..p] == ns;
    }
  }

  predicate HasInheritedCategory(ns: seq<Note>) {
    exists i :: 0 <= i < |ns| && IsInheritedKey(ns[i].category)
  }

  // -------------------------------------------------------------- sorting

  predicate SortedBy<T>(s: seq<T>, key: T -> int) {
    forall i, j :: 0 <= i < j < |s| ==> key(s[i]) <= key(s[j])
  }

  /** The elements whose key is `v`, in their order. */
  function WithKey<T>(s: seq<T>, key: T -> int, v: int): seq<T> {
    if s == [] then []
    else WithKey(s[..|s| - 1], key, v) + (if key(s[|s| - 1]) == v then [s[|s| - 1]] else [])
  }

  /** Inserting into a sorted list after every element whose key is not larger. */
  function InsertBy<T>(s: seq<T>, x: T, key: T -> int): seq<T> {
    if s == [] then [x]
    else if key(s[|s| - 1]) <= key(x) then s + [x]
    else InsertBy(s[..|s| - 1], x, key) + [s[|s| - 1]]
  }

  lemma {:induction false} InsertByFacts<T>(s: seq<T>, x: T, key: T -> int)
    requires SortedBy(s, key)
    ensures SortedBy(InsertBy(s, x, key), key)
    ensures multiset(InsertBy(s, x, key)) == multiset(s) + multiset{x}
  {
    InsertByPermutes(s, x, key);
    InsertBySorted(s, x, key);
  }

  lemma {:induction false} InsertByPermutes<T>(s: seq<T>, x: T, key: T -> int)
    ensures multiset(InsertBy(s, x, key)) == multiset(s) + multiset{x}
  {
    if s != [] && key(s[|s| - 1]) > key(x) {
      var init, last := s[..|s| - 1], s[|s| - 1];
      assert s == init + [last];
      InsertByPermutes(init, x, key);
    }
  }

  lemma {:induction false} InsertBySorted<T>(s: seq<T>, x: T, key: T -> int)
    requires SortedBy(s, key)
    ensures SortedBy(InsertBy(s, x, key), key)
  {
    if s == [] {
    } else if key(s[|s| - 1]) <= key(x) {
      var r := s + [x];
      forall i, j | 0 <= i < j < |r| ensures key(r[i]) <= key(r[j]) {
        if j == |s| {
          assert key(r[i]) <= key(s[|s| - 1]);
        }
      }
    } else {
      var init, last := s[..|s| - 1], s[|s| - 1];
      InsertBySorted(init, x, key);
      InsertByPermutes(init, x, key);
      var t := InsertBy(init, x, key);
      forall i | 0 <= i < |t| ensures key(t[i]) <= key(last) {
        assert t[i] in multiset(t);
        if t[i] != x {
          assert t[i] in multiset(init);
          var k :| 0 <= k < |init| && init[k] == t[i];
        }
      }
      var r := t + [last];
      forall i, j | 0 <= i < j < |r| ensures key(r[i]) <= key(r[j]) {
        if j < |t| {
          assert r[i] == t[i] && r[j] == t[j];
        }
      }
    }
  }

  /** The inserted element goes after every element of equal key. */
  lemma {:induction false} InsertByStable<T>(s: seq<T>, x: T, key: T -> int, v: int)
    ensures WithKey(InsertBy(s, x, key), key, v) == WithKey(s, key, v) + (if key(x) == v then [x] else [])
  {
    if s == [] {
      assert [x][..0] == [];
    } else if key(s[|s| - 1]) <= key(x) {
      assert (s + [x])[..|s|] == s;
    } else {
      var init, last := s[..|s| - 1], s[|s| - 1];
      InsertByStable(init, x, key, v);
      var t := InsertBy(init, x, key);
      assert (t + [last])[..|t|] == t;
    }
  }

  /**
   * A stable sort by ascending key: sorted, the same elements, and elements
   * of equal key in their original order. `Array.prototype.sort` is stable.
   */
  function SortBy<T(==)>(s: seq<T>, key: T -> int): (r: seq<T>)
    ensures SortedBy(r, key)
    ensures multiset(r) == multiset(s)
    ensures forall v :: WithKey(r, key, v) == WithKey(s, key, v)
  {
    if s == [] then []
    else
      var init, last := s[..|s| - 1], s[|s| - 1];
      InsertByFacts(SortBy(init, key), last, key);
      assert forall v :: WithKey(InsertBy(SortBy(init, key), last, key), key, v)
                      == WithKey(SortBy(init, key), key, v) + (if key(last) == v then [last] else []) by {
        forall v { InsertByStable(SortBy(init, key), last, key, v); }
      }
      assert s == init + [last];
      InsertBy(SortBy(init, key), last, key)
  }

  /** The comparator `(a, b) => b.date - a.date` orders by this key. */
  function Age(n: Note): int {
    -n.date
  }

  predicate NewestFirst(ns: seq<Note>) {
    forall i, j :: 0 <= i < j < |ns| ==> ns[i].date >= ns[j].date
  }

  /** The notes created at time `d`, in their order. */
  function WithDate(ns: seq<Note>, d: int): seq<Note> {
    WithKey(ns, Age, -d)
  }

  /** `sort((a, b) => b.date - a.date)`: newest first, the same notes, equal times in stored order. */
  function SortNewestFirst(ns: seq<Note>): (r: seq<Note>)
    ensures NewestFirst(r)
    ensures multiset(r) == multiset(ns)
    ensures forall d :: WithDate(r, d) == WithDate(ns, d)
  {
    var r := SortBy(ns, Age);
    assert forall i :: 0 <= i < |r| ==> Age(r[i]) == -r[i].date;
    r
  }

  // ------------------------------------------------------------- the view

  function Categories(gs: seq<Group>): (r: seq<string>)
    ensures |r| == |gs| && forall j :: 0 <= j < |gs| ==> r[j] == gs[j].category
  {
    seq(|gs|, j requires 0 <= j < |gs| => gs[j].category)
  }

  /** One group per key, in the keys' order, holding that category's notes newest first. */
  function GroupsOf(ns: seq<Note>, keys: seq<string>): (gs: seq<Group>)
    ensures |gs| == |keys|
    ensures forall j :: 0 <= j < |gs| ==> gs[j] == Group(keys[j], SortNewestFirst(InCategory(ns, keys[j])))
  {
    seq(|keys|, j requires 0 <= j < |keys| => Group(keys[j], SortNewestFirst(InCategory(ns, keys[j]))))
  }

  lemma GroupsOfSnoc(ns: seq<Note>, keys: seq<string>, k: nat)
    requires k < |keys|
    ensures GroupsOf(ns, keys[..k + 1]) == GroupsOf(ns, keys[..k]) + [Group(keys[k], SortNewestFirst(InCategory(ns, keys[k])))]
  {
  }

  /** The intended view: one group per category in `Object.keys` order, each sorted newest first. */
  function Grouped(ns: seq<Note>): seq<Group> {
    GroupsOf(ns, ObjectKeys(FirstSeen(ns)))
  }

  lemma GroupedCategories(ns: seq<Note>)
    ensures Categories(Grouped(ns)) == ObjectKeys(FirstSeen(ns))
  {
  }

  /** No category has two groups. */
  lemma GroupedDistinct(ns: seq<Note>)
    ensures Distinct(Categories(Grouped(ns)))
  {
    GroupedCategories(ns);
    ObjectKeysOrder(FirstSeen(ns));
  }

  /** The view has one group for each category that occurs and no other. */
  lemma GroupedCovers(ns: seq<Note>)
    ensures forall c :: c in Categories(Grouped(ns)) <==> InCategory(ns, c) != []
  {
    var keys := ObjectKeys(FirstSeen(ns));
    GroupedCategories(ns);
    SplitSortPermutes(FirstSeen(ns), IsArrayIndexKey, KeyValue);
    forall c ensures c in keys <==> InCategory(ns, c) != [] {
      assert c in keys <==> c in multiset(keys);
      FirstSeenMember(ns, c);
    }
  }

  /**
   * A group holds exactly the notes of its category, newest first, notes
   * created at the same time in stored order.
   */
  ghost predicate GroupHolds(ns: seq<Note>, g: Group) {
    && multiset(g.notes) == multiset(InCategory(ns, g.category))
    && NewestFirst(g.notes)
    && forall d :: WithDate(g.notes, d) == WithDate(InCategory(ns, g.category), d)
  }

  lemma GroupedContents(ns: seq<Note>)
    ensures forall j :: 0 <= j < |Grouped(ns)| ==> GroupHolds(ns, Grouped(ns)[j])
  {
  }

  /** A group of the view holds a note exactly when the note has the group's category. */
  lemma GroupedMember(ns: seq<Note>, j: nat, n: Note)
    requires j < |Grouped(ns)|
    ensures n in Grouped(ns)[j].notes <==> n in ns && n.category == Grouped(ns)[j].category
  {
    var g := Grouped(ns)[j];
    GroupedContents(ns);
    assert GroupHolds(ns, g);
    assert n in g.notes <==> n in multiset(g.notes);
    InCategoryMember(ns, g.category, n);
  }

  /**
   * Every note of the section appears in exactly one group, the group for its
   * category, and a group holds nothing else.
   */
  lemma GroupedPlacesNote(ns: seq<Note>, n: Note)
    ensures n in ns <==> exists j :: 0 <= j < |Grouped(ns)| && n in Grouped(ns)[j].notes
    ensures forall j :: 0 <= j < |Grouped(ns)| && n in Grouped(ns)[j].notes ==> Grouped(ns)[j].category == n.category
    ensures forall i, j :: 0 <= i < |Grouped(ns)| && 0 <= j < |Grouped(ns)| && n in Grouped(ns)[i].notes && n in Grouped(ns)[j].notes ==> i == j
  {
    var gs := Grouped(ns);
    var cs := Categories(gs);
    forall j | 0 <= j < |gs|
      ensures n in gs[j].notes <==> n in ns && n.category == cs[j]
    {
      GroupedMember(ns, j, n);
    }
    if n in ns {
      GroupedCovers(ns);
      InCategoryMember(ns, n.category, n);
      var j :| 0 <= j < |cs| && cs[j] == n.category;
      assert n in gs[j].notes;
    }
    GroupedDistinct(ns);
  }

  /**
   * The groups come in `Object.keys` order: array-index categories first and
   * ascending, every other category in the order the notes first show it.
   */
  lemma GroupedOrder(ns: seq<Note>)
    ensures var cs := Categories(Grouped(ns));
      && (forall i, j :: 0 <= i < j < |cs| && IsArrayIndexKey(cs[j]) ==> IsArrayIndexKey(cs[i]))
      && (forall i, j :: 0 <= i < j < |cs| && IsArrayIndexKey(cs[j]) ==> KeyValue(cs[i]) <= KeyValue(cs[j]))
      && KeysWhere(cs, false) == KeysWhere(FirstSeen(ns), false)
  {
    ObjectKeysOrder(FirstSeen(ns));
    assert Categories(Grouped(ns)) == ObjectKeys(FirstSeen(ns));
  }

  /** Without array-index categories the groups are exactly in first-seen order. */
  lemma GroupedFirstSeen(ns: seq<Note>)
    requires forall i :: 0 <= i < |ns| ==> !IsArrayIndexKey(ns[i].category)
    ensures Categories(Grouped(ns)) == FirstSeen(ns)
  {
    var fs := FirstSeen(ns);
    forall i | 0 <= i < |fs| ensures !IsArrayIndexKey(fs[i]) {
      FirstSeenMember(ns, fs[i]);
      var n := InCategory(ns, fs[i])[0];
      InCategoryMember(ns, fs[i], n);
      var k :| 0 <= k < |ns| && ns[k] == n;
    }
    WhereNone(fs, IsArrayIndexKey, true);
    WhereAll(fs, IsArrayIndexKey, false);
    assert Categories(Grouped(ns)) == ObjectKeys(fs);
  }

  /**
   * What the dictionary holds after the scan has read the first `i` notes:
   * one entry per category met so far, in the order met, each holding that
   * category's notes in stored order.
   */
  ghost predicate Scanned(ns: seq<Note>, i: nat, order: seq<string>, buckets: map<string, seq<Note>>)
    requires i <= |ns|
  {
    && order == FirstSeen(ns[..i])
    && (forall c :: c in buckets <==> c in order)
    && (forall c :: c in buckets ==> buckets[c] == InCategory(ns[..i], c))
  }

  /** Reading note `i`: a new category gets an empty entry at the end of the key order, then the note is pushed. */
  lemma ScanAdvance(ns: seq<Note>, i: nat, order: seq<string>, buckets: map<string, seq<Note>>,
                    order': seq<string>, buckets': map<string, seq<Note>>)
    requires i < |ns| && Scanned(ns, i, order, buckets)
    requires order' == if ns[i].category in buckets then order else order + [ns[i].category]
    requires buckets' == buckets[ns[i].category := (if ns[i].category in buckets then buckets[ns[i].category] else []) + [ns[i]]]
    ensures Scanned(ns, i + 1, order', buckets')
  {
    var c := ns[i].category;
    FirstSeenStep(ns, i);
    if c !in buckets {
      FirstSeenMember(ns[..i], c);
    }
    forall k | k in buckets' ensures buckets'[k] == InCategory(ns[..i + 1], k) {
      InCategoryStep(ns, i, k);
    }
  }

  lemma ScannedNone(ns: seq<Note>)
    ensures Scanned(ns, 0, [], map[])
  {
    assert ns[..0] == [];
  }

  lemma ScannedAll(ns: seq<Note>, order: seq<string>, buckets: map<string, seq<Note>>)
    requires Scanned(ns, |ns|, order, buckets)
    ensures order == FirstSeen(ns)
    ensures forall c :: c in buckets <==> c in order
    ensures forall c :: c in buckets ==> buckets[c] == InCategory(ns, c)
  {
    assert ns[..|ns|] == ns;
  }

  // ------------------------------------------------------------- examples

  /**
   * A single note filed under "toString": the scan throws, so the section shows
   * nothing, although the intended view is one group holding that note.
   */
  lemma InheritedCategoryBreaksView()
    ensures var ns := [Note(1, "toString", "memo", 0)];
      HasInheritedCategory(ns) && Grouped(ns) == [Group("toString", ns)]
  {
    var n := Note(1, "toString", "memo", 0);
    assert IsInheritedKey([n][0].category) by {
      assert InheritedKeys[9] == "toString";
      ListedAt("toString", InheritedKeys, 9);
    }
    assert !IsArrayIndexKey(n.category) by {
      assert !IsDigit(n.category[0]);
    }
    SingleNoteGrouped(n);
  }

  lemma {:induction false} ListedAt(k: string, ks: seq<string>, i: nat)
    requires i < |ks| && ks[i] == k
    ensures Listed(k, ks)
  {
    if i > 0 {
      ListedAt(k, ks[1..], i - 1);
    }
  }

  /** One note outside the array-index keys makes one group of itself. */
  lemma SingleNoteGrouped(n: Note)
    requires !IsArrayIndexKey(n.category)
    ensures Grouped([n]) == [Group(n.category, [n])]
  {
    SingleNoteScanned(n);
    GroupedByPlainKeys([n], [n.category]);
    GroupsOfOne([n], n.category);
    SingleNoteSorted(n);
  }

  lemma SingleNoteScanned(n: Note)
    ensures FirstSeen([n]) == [n.category] && InCategory([n], n.category) == [n]
  {
    assert [n][..0] == [];
  }

  /** When no category is an array index, the groups follow the first-seen order. */
  lemma GroupedByPlainKeys(ns: seq<Note>, keys: seq<string>)
    requires FirstSeen(ns) == keys
    requires forall i :: 0 <= i < |keys| ==> !IsArrayIndexKey(keys[i])
    ensures Grouped(ns) == GroupsOf(ns, keys)
  {
    PlainKeysListed(keys);
  }

  /** Keys none of which is an array index keep their order. */
  lemma PlainKeysListed(ks: seq<string>)
    requires forall i :: 0 <= i < |ks| ==> !IsArrayIndexKey(ks[i])
    ensures ObjectKeys(ks) == ks
  {
    WhereNone(ks, IsArrayIndexKey, true);
    WhereAll(ks, IsArrayIndexKey, false);
    assert SortBy([], KeyValue) == [];
  }

  lemma GroupsOfOne(ns: seq<Note>, a: string)
    ensures GroupsOf(ns, [a]) == [Group(a, SortNewestFirst(InCategory(ns, a)))]
  {
  }

  lemma GroupsOfTwo(ns: seq<Note>, a: string, b: string)
    ensures GroupsOf(ns, [a, b]) == [Group(a, SortNewestFirst(InCategory(ns, a))), Group(b, SortNewestFirst(InCategory(ns, b)))]
  {
  }

  lemma SingleNoteSorted(n: Note)
    ensures SortNewestFirst([n]) == [n]
  {
    var r := SortNewestFirst([n]);
    assert |r| == |multiset(r)| == 1;
    assert r[0] in multiset([n]);
  }

  /** Two notes already newest first stay as they are. */
  lemma TwoNotesSorted(x: Note, y: Note)
    requires x.date > y.date
    ensures SortNewestFirst([x, y]) == [x, y]
  {
    var r := SortNewestFirst([x, y]);
    assert |r| == |multiset(r)| == 2;
    assert r[0] in multiset([x, y]) && r[1] in multiset([x, y]);
  }

  lemma ThreeNotesScanned(x: Note, y: Note, z: Note)
    requires x.category == z.category != y.category
    ensures FirstSeen([x, y, z]) == [x.category, y.category]
    ensures InCategory([x, y, z], x.category) == [x, z] && InCategory([x, y, z], y.category) == [y]
  {
    var ns := [x, y, z];
    assert ns[..0] == [] && ns[..1] == [x] && ns[..2] == [x, y] && ns[..3] == ns;
    FirstSeenStep(ns, 0);
    FirstSeenStep(ns, 1);
    FirstSeenStep(ns, 2);
    ThreeNotesInCategory(x, y, z, x.category);
    ThreeNotesInCategory(x, y, z, y.category);
  }

  lemma ThreeNotesInCategory(x: Note, y: Note, z: Note, c: string)
    ensures InCategory([x, y, z], c) == (if x.category == c then [x] else []) + (if y.category == c then [y] else [])
                                         + (if z.category == c then [z] else [])
  {
    var ns := [x, y, z];
    assert ns[..0] == [] && ns[..1] == [x] && ns[..2] == [x, y] && ns[..3] == ns;
    InCategoryStep(ns, 0, c);
    InCategoryStep(ns, 1, c);
    InCategoryStep(ns, 2, c);
  }

  /**
   * Three notes, the first and last in one category and the middle one in
   * another: two groups in that order, the first holding the outer notes
   * newest first.
   */
  lemma ThreeNotesGroupedAt(x: Note, y: Note, z: Note)
    requires x.category == z.category != y.category && x.date > z.date
    requires !IsArrayIndexKey(x.category) && !IsArrayIndexKey(y.category)
    ensures Grouped([x, y, z]) == [Group(x.category, [x, z]), Group(y.category, [y])]
  {
    ThreeNotesScanned(x, y, z);
    GroupedByPlainKeys([x, y, z], [x.category, y.category]);
    GroupsOfTwo([x, y, z], x.category, y.category);
    TwoNotesSorted(x, z);
    SingleNoteSorted(y);
  }

  /**
   * Notes filed under "A", "B" and "A" in that order, stored newest first:
   * the groups are "A" then "B", and "A" holds both its notes newest first.
   */
  lemma ThreeNotesGrouped()
    ensures var older, other, newer := Note(1, "A", "x", 1), Note(2, "B", "y", 2), Note(3, "A", "z", 3);
      Grouped([newer, other, older]) == [Group("A", [newer, older]), Group("B", [other])]
  {
    var older, other, newer := Note(1, "A", "x", 1), Note(2, "B", "y", 2), Note(3, "A", "z", 3);
    assert !IsDigit(newer.category[0]) && !IsDigit(other.category[0]);
    ThreeNotesGroupedAt(newer, other, older);
  }
}
