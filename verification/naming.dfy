/**
 * The naming policy: the default name `showAddSectionModal` proposes and the
 * section-number counter `addSection` raises from the names it sees.
 */
module Naming {
  import opened Wrappers
  import opened Text

  /** The prefix of every suggested name ("section"). */
  const Base: string := "セクション"

  /** The name proposed for number `k`: the prefix followed by `k` in decimal. */
  function SuggestedName(k: int): (r: string)
    ensures |r| > |Base| && r[..|Base|] == Base && r[|Base|..] == IntToString(k)
  {
    Base + IntToString(k)
  }

  /** Different numbers give different suggested names. */
  lemma SuggestedNameInjective(j: int, k: int)
    requires SuggestedName(j) == SuggestedName(k)
    ensures j == k
  {
    IntToStringInjective(j, k);
  }

  // --------------------------------------------------- the counter's pattern

  /** The unanchored pattern `セクション(\d+)` can start matching at position `i`. */
  predicate MatchesAt(name: string, i: nat) {
    i + |Base| < |name| && name[i..i + |Base|] == Base && IsDigit(name[i + |Base|])
  }

  /** The leftmost position at or after `from` where the pattern matches, as a regular expression search finds it. */
  function FirstMatch(name: string, from: nat): (r: Option<nat>)
    ensures r.Some? ==> from <= r.value && MatchesAt(name, r.value)
    ensures r.Some? ==> forall j :: from <= j < r.value ==> !MatchesAt(name, j)
    ensures r.None? ==> forall j :: from <= j ==> !MatchesAt(name, j)
    decreases |name| - from
  {
    if from + |Base| >= |name| then None
    else if MatchesAt(name, from) then Some(from)
    else FirstMatch(name, from + 1)
  }

  /** The greedy `\d+`: the longest run of digits at the start of `s`. */
  function LeadingDigits(s: string): (r: string)
    ensures |r| <= |s| && r == s[..|r|] && AllDigits(r)
    ensures |r| == |s| || !IsDigit(s[|r|])
  {
    if s != [] && IsDigit(s[0]) then [s[0]] + LeadingDigits(s[1..]) else []
  }

  /** `parseInt(name.match(/セクション(\d+)/)[1])`, or None when the pattern does not occur. */
  function NumberInName(name: string): (r: Option<nat>)
    ensures r.None? <==> forall j :: 0 <= j ==> !MatchesAt(name, j)
  {
    match FirstMatch(name, 0)
    case None => None
    case Some(i) => Some(DigitsValue(LeadingDigits(name[i + |Base|..])))
  }

  /** The counter after `addSection` has seen `name`: raised to one past its number, never lowered. */
  function CounterAfter(counter: int, name: string): (r: int)
    ensures r >= counter
    ensures NumberInName(name).Some? ==> r > NumberInName(name).value
    ensures NumberInName(name).None? ==> r == counter
    ensures r == counter || r == NumberInName(name).value + 1
  {
    match NumberInName(name)
    case None => counter
    case Some(n) => if n + 1 > counter then n + 1 else counter
  }

  /** A suggested name with a non-negative number is recognised by the counter's pattern, with that number. */
  lemma NumberInSuggestedName(k: nat)
    ensures NumberInName(SuggestedName(k)) == Some(k)
  {
    var name := SuggestedName(k);
    var digits := NatToString(k);
    assert name[0..|Base|] == Base;
    assert name[|Base|] == digits[0];
    assert MatchesAt(name, 0);
    assert name[|Base|..] == digits;
    LeadingAllDigits(digits);
    DigitsValueOfNatToString(k);
  }

  lemma {:induction false} LeadingAllDigits(s: string)
    requires AllDigits(s)
    ensures LeadingDigits(s) == s
  {
    if s != [] {
      LeadingAllDigits(s[1..]);
    }
  }

  /** So adding a section under the suggested name `k` pushes the counter past `k`. */
  lemma CounterPassesSuggestion(counter: int, k: nat)
    ensures CounterAfter(counter, SuggestedName(k)) == if k + 1 > counter then k + 1 else counter
  {
    NumberInSuggestedName(k);
  }

  // -------------------------------------------------------- the suggestion

  /** Removing the name for `k` from the list keeps the name for any other number. */
  lemma StillTaken(names: seq<string>, i: nat, j: int, k: int)
    requires i < |names| && names[i] == SuggestedName(k)
    requires SuggestedName(j) in names && j != k
    ensures SuggestedName(j) in names[..i] + names[i + 1..]
  {
    var rest := names[..i] + names[i + 1..];
    var p :| 0 <= p < |names| && names[p] == SuggestedName(j);
    if p == i {
      SuggestedNameInjective(j, k);
    }
    if p < i {
      assert rest[p] == names[p];
    } else {
      assert rest[p - 1] == names[p];
    }
  }

  /**
   * At most `|names|` consecutive numbers can have their suggested name taken,
   * since distinct numbers give distinct names.
   */
  lemma {:induction false} TakenNumbersFit(names: seq<string>, start: int, end: int)
    requires start <= end
    requires forall j :: start <= j < end ==> SuggestedName(j) in names
    ensures end - start <= |names|
  {
    if start < end {
      var last := SuggestedName(end - 1);
      var i :| 0 <= i < |names| && names[i] == last;
      var rest := names[..i] + names[i + 1..];
      forall j | start <= j < end - 1 ensures SuggestedName(j) in rest {
        StillTaken(names, i, j, end - 1);
      }
      TakenNumbersFit(rest, start, end - 1);
    }
  }

  /**
   * The loop of `showAddSectionModal`: starting at `start`, the first number
   * whose suggested name no existing section carries. It stops within
   * `|names|` steps.
   */
  method SuggestName(names: seq<string>, start: int) returns (name: string, k: int)
    ensures start <= k <= start + |names|
    ensures name == SuggestedName(k) && name !in names
    ensures forall j :: start <= j < k ==> SuggestedName(j) in names
  {
    k := start;
    name := SuggestedName(k);
    while name in names
      invariant start <= k <= start + |names|
      invariant name == SuggestedName(k)
      invariant forall j :: start <= j < k ==> SuggestedName(j) in names
      decreases start + |names| - k
    {
      TakenNumbersFit(names, start, k + 1);
      k := k + 1;
      name := SuggestedName(k);
    }
  }
}
