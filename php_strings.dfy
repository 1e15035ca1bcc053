/**
 * The few PHP string primitives the extension manager relies on: `strpos`,
 * `empty()` on a string, and the absence of repeated characters in a
 * marker list. A PHP string is a sequence of bytes; here each `char`
 * stands for one byte.
 */
module PhpStrings {
  import opened Wrappers

  /** `needle` sits in `haystack` starting at index `at`. */
  predicate OccursAt(haystack: string, needle: string, at: nat) {
    at + |needle| <= |haystack| && haystack[at..at + |needle|] == needle
  }

  /** `needle` sits somewhere in `haystack`. */
  ghost predicate Occurs(haystack: string, needle: string) {
    exists at: nat :: OccursAt(haystack, needle, at)
  }

  /** Dropping the first character of the haystack shifts every occurrence one place left. */
  lemma ShiftOccurrences(haystack: string, needle: string)
    requires |haystack| > 0
    ensures forall at: nat :: OccursAt(haystack[1..], needle, at) ==> OccursAt(haystack, needle, at + 1)
    ensures forall at: nat :: 0 < at && OccursAt(haystack, needle, at) ==> OccursAt(haystack[1..], needle, at - 1)
  {
  }

  /** How occurrences in the two halves of a concatenation relate to occurrences in the whole. */
  lemma OccursInConcat(a: string, b: string, needle: string)
    ensures forall at: nat :: OccursAt(a, needle, at) ==> OccursAt(a + b, needle, at)
    ensures forall at: nat :: OccursAt(b, needle, at) ==> OccursAt(a + b, needle, |a| + at)
    ensures forall at: nat :: at + |needle| <= |a| && OccursAt(a + b, needle, at) ==> OccursAt(a, needle, at)
    ensures forall at: nat :: |a| <= at && OccursAt(a + b, needle, at) ==> OccursAt(b, needle, at - |a|)
  {
    forall at: nat | OccursAt(a, needle, at)
      ensures OccursAt(a + b, needle, at)
    {
      assert (a + b)[at..at + |needle|] == a[at..at + |needle|];
    }
    forall at: nat | OccursAt(b, needle, at)
      ensures OccursAt(a + b, needle, |a| + at)
    {
      assert (a + b)[|a| + at..|a| + at + |needle|] == b[at..at + |needle|];
    }
    forall at: nat | at + |needle| <= |a| && OccursAt(a + b, needle, at)
      ensures OccursAt(a, needle, at)
    {
      assert (a + b)[at..at + |needle|] == a[at..at + |needle|];
    }
    forall at: nat | |a| <= at && OccursAt(a + b, needle, at)
      ensures OccursAt(b, needle, at - |a|)
    {
      assert (a + b)[at..at + |needle|] == b[at - |a|..at - |a| + |needle|];
    }
  }

  /**
   * PHP's `strpos(haystack, needle)`: the index of the FIRST occurrence of
   * `needle`, or `None` where PHP returns `false`.
   */
  function StrPos(haystack: string, needle: string): (r: Option<nat>)
    ensures r.Some? ==> OccursAt(haystack, needle, r.value)
    ensures r.Some? ==> forall at: nat :: at < r.value ==> !OccursAt(haystack, needle, at)
    ensures r.None? <==> !Occurs(haystack, needle)
    ensures r == Some(0) <==> needle <= haystack
    decreases |haystack|
  {
    assert OccursAt(haystack, needle, 0) <==> needle <= haystack;
    if needle <= haystack then Some(0)
    else if haystack == [] then
      assert forall at: nat :: !OccursAt(haystack, needle, at);
      None
    else
      var rest := StrPos(haystack[1..], needle);
      ShiftOccurrences(haystack, needle);
      if rest.Some? then Some(rest.value + 1) else None
  }

  /** `strpos` of a one-character needle answers `false` exactly when the character is absent. */
  lemma StrPosCharacter(haystack: string, c: char)
    ensures StrPos(haystack, [c]).None? <==> c !in haystack
  {
    if c in haystack {
      var i :| 0 <= i < |haystack| && haystack[i] == c;
      assert OccursAt(haystack, [c], i);
    } else {
      assert forall at: nat :: OccursAt(haystack, [c], at) ==> haystack[at] == c;
    }
  }

  /** PHP's `empty()` applied to a string: true for `""` and for `"0"`. */
  predicate Empty(s: string) {
    s == "" || s == "0"
  }

  /** No character appears twice. */
  predicate Distinct(s: string) {
    forall i, j :: 0 <= i < j < |s| ==> s[i] != s[j]
  }
}
