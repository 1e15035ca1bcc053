/**
 * The naming convention by which the host parser asks for extension code.
 * The host looks up a method named `block<Id>`, `block<Id>Continue`,
 * `block<Id>Complete` or `inline<Id>`; the extension manager catches every
 * such lookup in `__call` and recovers the phase and the identity from the
 * name. This module is that parse (`RouteOf`) and the convention itself
 * (`NameOf`), with the proof that each undoes the other.
 */
module Routing {
  import opened Wrappers
  import opened PhpStrings

  const BLOCK := "block"
  const INLINE := "inline"
  const CONTINUE := "Continue"
  const COMPLETE := "Complete"

  /** What a method name asks for; `Undefined` carries the name that matched neither prefix. */
  datatype Route =
    | BlockStart(id: string)
    | BlockContinue(id: string)
    | BlockComplete(id: string)
    | InlineRun(id: string)
    | Undefined(name: string)
  {
    predicate IsBlock() {
      BlockStart? || BlockContinue? || BlockComplete?
    }
  }

  /** The two phase suffixes; both are eight characters long. */
  predicate IsPhaseSuffix(s: string) {
    s == CONTINUE || s == COMPLETE
  }

  /** `strpos($name, $suffix) === strlen($name) - 8`: the FIRST occurrence of the suffix ends the name. */
  predicate SuffixTest(name: string, suffix: string) {
    var at := StrPos(name, suffix);
    at.Some? && at.value == |name| - 8
  }

  /** The method name the host convention gives to a route. */
  function NameOf(r: Route): string {
    match r
    case BlockStart(id) => BLOCK + id
    case BlockContinue(id) => BLOCK + id + CONTINUE
    case BlockComplete(id) => BLOCK + id + COMPLETE
    case InlineRun(id) => INLINE + id
    case Undefined(name) => name
  }

  /**
   * The routing part of `__call`: the `block` prefix is tested before the
   * `inline` prefix, and `Continue` before `Complete`; the identity is what
   * is left once the prefix and the phase suffix are cut off.
   */
  function RouteOf(name: string): (r: Route)
    ensures r.IsBlock() <==> BLOCK <= name
    ensures r.InlineRun? <==> !(BLOCK <= name) && INLINE <= name
    ensures r.Undefined? <==> !(BLOCK <= name) && !(INLINE <= name)
    ensures r.Undefined? ==> r.name == name
  {
    if StrPos(name, BLOCK) == Some(0) then
      if SuffixTest(name, CONTINUE) then
        PhaseSuffixFollowsPrefix(name, CONTINUE, |name| - 8);
        BlockContinue(name[|BLOCK|..|name| - 8])
      else if SuffixTest(name, COMPLETE) then
        PhaseSuffixFollowsPrefix(name, COMPLETE, |name| - 8);
        BlockComplete(name[|BLOCK|..|name| - 8])
      else
        BlockStart(name[|BLOCK|..])
    else if StrPos(name, INLINE) == Some(0) then
      InlineRun(name[|INLINE|..])
    else
      Undefined(name)
  }

  /** A capital `C` opens each phase suffix and appears nowhere else in it. */
  lemma CapitalCOnlyFirst(s: string)
    requires IsPhaseSuffix(s)
    ensures |s| == 8 && s[0] == 'C'
    ensures forall k :: 0 < k < |s| ==> s[k] != 'C'
  {
  }

  /** In a name that starts with `block`, a phase suffix can only occur after the prefix. */
  lemma PhaseSuffixFollowsPrefix(name: string, s: string, at: nat)
    requires IsPhaseSuffix(s) && BLOCK <= name
    ensures OccursAt(name, s, at) ==> at >= |BLOCK|
  {
    CapitalCOnlyFirst(s);
    assert 'C' !in BLOCK;
    if at < |BLOCK| && at + |s| <= |name| {
      assert name[at..at + |s|][0] == name[at] == BLOCK[at];
    }
  }

  /**
   * A phase suffix has no border, so no occurrence of it can straddle the
   * join between `x` and a copy of it appended to `x`.
   */
  lemma NoOccurrenceAcrossJoin(x: string, s: string, at: nat)
    requires IsPhaseSuffix(s) && at < |x| < at + |s|
    ensures !OccursAt(x + s, s, at)
  {
    CapitalCOnlyFirst(s);
    var h := x + s;
    assert h[|x|] == s[0];
    assert h[at..at + |s|][|x| - at] == h[|x|];
  }

  /** Once `x` lacks the suffix, the copy appended to it is the first occurrence. */
  lemma FirstOccurrenceIsJoin(x: string, s: string)
    requires IsPhaseSuffix(s) && !Occurs(x, s)
    ensures StrPos(x + s, s) == Some(|x|)
  {
    var h := x + s;
    OccursInConcat(x, s, s);
    assert OccursAt(s, s, 0);
    assert OccursAt(h, s, |x|);
    forall at: nat | at < |x|
      ensures !OccursAt(h, s, at)
    {
      if at + |s| > |x| {
        NoOccurrenceAcrossJoin(x, s, at);
      }
    }
    var p := StrPos(h, s);
    assert p.Some?;
    assert !(p.value < |x|);
    assert !(p.value > |x|);
  }

  /**
   * Appending a phase suffix to `x` makes that suffix's first occurrence
   * sit at the join exactly when `x` does not already contain it.
   */
  lemma FirstOccurrenceAtJoin(x: string, s: string)
    requires IsPhaseSuffix(s)
    ensures StrPos(x + s, s) == Some(|x|) <==> !Occurs(x, s)
  {
    if !Occurs(x, s) {
      FirstOccurrenceIsJoin(x, s);
    } else {
      var j: nat :| OccursAt(x, s, j);
      OccursInConcat(x, s, s);
      assert OccursAt(x + s, s, j) && j < |x|;
    }
  }

  /**
   * `y` ends with the phase suffix `s` and that is the first place `s`
   * occurs in it.
   */
  ghost predicate CarriesPhaseSuffix(y: string, s: string) {
    |y| >= |s| && y[|y| - |s|..] == s && !Occurs(y[..|y| - |s|], s)
  }

  /** A `block` name that passes the suffix test carries the suffix after the prefix. */
  lemma SuffixTestCarries(y: string, s: string)
    requires IsPhaseSuffix(s) && SuffixTest(BLOCK + y, s)
    ensures CarriesPhaseSuffix(y, s)
  {
    var name := BLOCK + y;
    var at := |name| - 8;
    CapitalCOnlyFirst(s);
    PhaseSuffixFollowsPrefix(name, s, at);
    assert y[|y| - 8..] == name[at..at + 8];
    var z := y[..|y| - 8];
    assert y == z + s;
    OccursInConcat(z, s, s);
    OccursInConcat(BLOCK, y, s);
  }

  /** A `block` name whose rest carries the suffix passes the suffix test. */
  lemma CarriesSuffixTest(y: string, s: string)
    requires IsPhaseSuffix(s) && CarriesPhaseSuffix(y, s)
    ensures SuffixTest(BLOCK + y, s)
  {
    CapitalCOnlyFirst(s);
    var z := y[..|y| - 8];
    assert y == z + s;
    assert BLOCK + y == (BLOCK + z) + s;
    OccursInConcat(BLOCK, z, s);
    forall j: nat
      ensures OccursAt(BLOCK + z, s, j) ==> j >= |BLOCK|
    {
      PhaseSuffixFollowsPrefix(BLOCK + z, s, j);
    }
    assert !Occurs(BLOCK + z, s);
    FirstOccurrenceAtJoin(BLOCK + z, s);
  }

  /** The suffix test on `block` + `y` holds exactly when `y` carries the suffix. */
  lemma SuffixTestOfBlockName(y: string, s: string)
    requires IsPhaseSuffix(s)
    ensures SuffixTest(BLOCK + y, s) <==> CarriesPhaseSuffix(y, s)
  {
    if SuffixTest(BLOCK + y, s) {
      SuffixTestCarries(y, s);
    }
    if CarriesPhaseSuffix(y, s) {
      CarriesSuffixTest(y, s);
    }
  }

  /** A name ending in one phase suffix never passes the other suffix's test. */
  lemma OtherSuffixFails(id: string, s: string, other: string)
    requires IsPhaseSuffix(s) && IsPhaseSuffix(other) && s != other
    ensures !SuffixTest(BLOCK + id + s, other)
  {
  }

  /** `block` + `id` + `s` passes the suffix test for `s` exactly when `id` does not contain `s`. */
  lemma SuffixTestOfPhaseName(id: string, s: string)
    requires IsPhaseSuffix(s)
    ensures SuffixTest(BLOCK + id + s, s) <==> !Occurs(id, s)
  {
    SuffixTestOfBlockName(id + s, s);
    assert BLOCK + id + s == BLOCK + (id + s);
    assert (id + s)[..|id + s| - |s|] == id;
    assert (id + s)[|id + s| - |s|..] == s;
  }

  /**
   * The names whose parse gives back the route: an identity that contains
   * its own phase suffix is cut at the first occurrence, and a start
   * identity must not look like a phase name itself.
   */
  ghost predicate Routable(r: Route) {
    match r
    case BlockStart(id) => !CarriesPhaseSuffix(id, CONTINUE) && !CarriesPhaseSuffix(id, COMPLETE)
    case BlockContinue(id) => !Occurs(id, CONTINUE)
    case BlockComplete(id) => !Occurs(id, COMPLETE)
    case InlineRun(_) => true
    case Undefined(name) => !(BLOCK <= name) && !(INLINE <= name)
  }

  /** A `block` name that passes a suffix test is prefix, identity and suffix put together. */
  lemma PhaseNameSplits(name: string, s: string)
    requires IsPhaseSuffix(s) && BLOCK <= name && SuffixTest(name, s)
    ensures |BLOCK| <= |name| - 8 && name == BLOCK + name[|BLOCK|..|name| - 8] + s
  {
    var at := |name| - 8;
    assert |s| == 8;
    assert OccursAt(name, s, at);
    PhaseSuffixFollowsPrefix(name, s, at);
    SlicesJoin(name, |BLOCK|, at);
    assert name[..|BLOCK|] == BLOCK;
    assert name[at..] == s;
  }

  /** Cutting a string at two points and joining the three pieces gives it back. */
  lemma SlicesJoin(x: string, i: nat, j: nat)
    requires i <= j <= |x|
    ensures x == x[..i] + x[i..j] + x[j..]
  {
  }

  /** Parsing a name and printing the route gives the name back, for every name. */
  lemma NameOfRouteOf(name: string)
    ensures NameOf(RouteOf(name)) == name
  {
    if BLOCK <= name {
      if SuffixTest(name, CONTINUE) {
        PhaseNameSplits(name, CONTINUE);
        assert RouteOf(name) == BlockContinue(name[|BLOCK|..|name| - 8]);
      } else if SuffixTest(name, COMPLETE) {
        PhaseNameSplits(name, COMPLETE);
        assert RouteOf(name) == BlockComplete(name[|BLOCK|..|name| - 8]);
      } else {
        assert RouteOf(name) == BlockStart(name[|BLOCK|..]);
        assert name == BLOCK + name[|BLOCK|..];
      }
    } else if INLINE <= name {
      assert RouteOf(name) == InlineRun(name[|INLINE|..]);
      assert name == INLINE + name[|INLINE|..];
    }
  }

  /** Printing a route and parsing the name gives the route back exactly when it is routable. */
  lemma RouteOfNameOf(r: Route)
    ensures RouteOf(NameOf(r)) == r <==> Routable(r)
  {
    var name := NameOf(r);
    match r
    case BlockStart(id) =>
      SuffixTestOfBlockName(id, CONTINUE);
      SuffixTestOfBlockName(id, COMPLETE);
      assert name[|BLOCK|..] == id;
    case BlockContinue(id) =>
      SuffixTestOfPhaseName(id, CONTINUE);
      OtherSuffixFails(id, CONTINUE, COMPLETE);
      assert name[|BLOCK|..|name| - 8] == id;
    case BlockComplete(id) =>
      SuffixTestOfPhaseName(id, COMPLETE);
      OtherSuffixFails(id, COMPLETE, CONTINUE);
      assert name[|BLOCK|..|name| - 8] == id;
    case InlineRun(id) =>
      assert name[|INLINE|..] == id;
      assert name[1] != BLOCK[1];
    case Undefined(_) =>
  }

  /** Every name parses to a routable route, so the routable routes are exactly the parses. */
  lemma RouteOfIsRoutable(name: string)
    ensures Routable(RouteOf(name))
  {
    NameOfRouteOf(name);
    RouteOfNameOf(RouteOf(name));
  }

  /**
   * An identity without a capital `C` (the lower-case hexadecimal strings
   * PHP's `spl_object_hash` yields are such) survives every form of name.
   */
  lemma RoutableWithoutCapitalC(id: string)
    requires 'C' !in id
    ensures Routable(BlockStart(id)) && Routable(BlockContinue(id))
    ensures Routable(BlockComplete(id)) && Routable(InlineRun(id))
  {
    CapitalCOnlyFirst(CONTINUE);
    CapitalCOnlyFirst(COMPLETE);
    forall s, at: nat | IsPhaseSuffix(s) && at + |s| <= |id|
      ensures !OccursAt(id, s, at)
    {
      assert id[at..at + |s|][0] == id[at];
    }
    if |id| >= 8 {
      assert id[|id| - 8..][0] == id[|id| - 8];
    }
  }
}
