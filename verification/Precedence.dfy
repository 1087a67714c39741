/**
 The comparison of `utils/version/version.go` against two independent orders: the
 lexicographic order of zero-extended component lists, and the precedence of
 Semantic Versioning 2.0.0, section 11.
 */
module Precedence {
  import opened Strings
  import opened Decimal
  import opened Version

  function Sign(a: int, b: int): int { if a < b then -1 else if a > b then 1 else 0 }

  // ------------------------------------------------- numeric components

  /** The component at `i`, absent ones being zero. */
  function At(c: seq<nat>, i: nat): nat { if i < |c| then c[i] else 0 }

  /** At the first place where the zero-extended lists differ, `a` is smaller. */
  ghost predicate Below(a: seq<nat>, b: seq<nat>) {
    exists i: nat :: FirstBelow(a, b, i)
  }

  ghost predicate FirstBelow(a: seq<nat>, b: seq<nat>, i: nat) {
    At(a, i) < At(b, i) && forall j: nat | j < i :: At(a, j) == At(b, j)
  }

  ghost predicate SameExtension(a: seq<nat>, b: seq<nat>) { forall i: nat :: At(a, i) == At(b, i) }

  ghost function CompareComponents(a: seq<nat>, b: seq<nat>): int {
    if Below(a, b) then -1 else if Below(b, a) then 1 else 0
  }

  /** Exactly one of below, above and same holds. */
  lemma {:induction false} Trichotomy(a: seq<nat>, b: seq<nat>)
    ensures !(Below(a, b) && Below(b, a))
    ensures Below(a, b) || Below(b, a) <==> !SameExtension(a, b)
  {
    if !SameExtension(a, b) {
      var i: nat :| At(a, i) != At(b, i);
      FirstDifference(a, b, i);
    }
  }

  lemma {:induction false} FirstDifference(a: seq<nat>, b: seq<nat>, i: nat)
    requires At(a, i) != At(b, i)
    ensures Below(a, b) || Below(b, a)
    decreases i
  {
    if j: nat :| j < i && At(a, j) != At(b, j) {
      FirstDifference(a, b, j);
    } else {
      assert FirstBelow(a, b, i) || FirstBelow(b, a, i);
    }
  }

  lemma BelowTransitive(a: seq<nat>, b: seq<nat>, c: seq<nat>)
    requires Below(a, b) && Below(b, c)
    ensures Below(a, c)
  {
    var i: nat :| FirstBelow(a, b, i);
    var j: nat :| FirstBelow(b, c, j);
    assert FirstBelow(a, c, if i < j then i else j);
  }

  lemma BelowSame(a: seq<nat>, b: seq<nat>, c: seq<nat>)
    requires SameExtension(a, b)
    ensures Below(a, c) <==> Below(b, c)
    ensures Below(c, a) <==> Below(c, b)
  {
    if Below(a, c) { var i: nat :| FirstBelow(a, c, i); assert FirstBelow(b, c, i); }
    if Below(b, c) { var i: nat :| FirstBelow(b, c, i); assert FirstBelow(a, c, i); }
    if Below(c, a) { var i: nat :| FirstBelow(c, a, i); assert FirstBelow(c, b, i); }
    if Below(c, b) { var i: nat :| FirstBelow(c, b, i); assert FirstBelow(c, a, i); }
  }

  /** The generic comparison is a total preorder whose ties are the lists equal up to trailing zeros. */
  lemma GenericOrder(a: seq<nat>, b: seq<nat>, c: seq<nat>)
    ensures CompareComponents(b, a) == -CompareComponents(a, b)
    ensures CompareComponents(a, b) == 0 <==> SameExtension(a, b)
    ensures CompareComponents(a, b) <= 0 && CompareComponents(b, c) <= 0 ==> CompareComponents(a, c) <= 0
    ensures CompareComponents(a, b) < 0 && CompareComponents(b, c) <= 0 ==> CompareComponents(a, c) < 0
    ensures CompareComponents(a, b) <= 0 && CompareComponents(b, c) < 0 ==> CompareComponents(a, c) < 0
  {
    Trichotomy(a, b);
    Trichotomy(b, c);
    Trichotomy(a, c);
    if Below(a, b) && Below(b, c) { BelowTransitive(a, b, c); }
    if SameExtension(a, b) { BelowSame(a, b, c); }
    if SameExtension(b, c) { BelowSame(b, c, a); }
  }

  lemma TrailingZeros(a: seq<nat>, zeros: seq<nat>)
    requires forall z | z in zeros :: z == 0
    ensures SameExtension(a + zeros, a)
  {
    forall i: nat ensures At(a + zeros, i) == At(a, i) {
      if |a| <= i < |a + zeros| { assert (a + zeros)[i] in zeros; }
    }
  }

  // ------------------------------------------------- pre-release identifiers

  /** Lines 220-238: numbers when both read as `uint`, text otherwise. */
  function CompareId(x: string, y: string): int {
    if ParseUint(x).Some? && ParseUint(y).Some? then Sign(ParseUint(x).value, ParseUint(y).value)
    else Compare(x, y)
  }

  /** Section 11.4: numbers numerically, others in ASCII order, numbers below others. */
  function PrecedenceId(x: string, y: string): int {
    if AllDigits(x) && AllDigits(y) then Sign(Value(x), Value(y))
    else if AllDigits(x) then -1
    else if AllDigits(y) then 1
    else Compare(x, y)
  }

  /** The first difference decides; a proper prefix is smaller. */
  function Lexicographic(xs: seq<string>, ys: seq<string>, compare: (string, string) -> int): int {
    if xs == [] then (if ys == [] then 0 else -1)
    else if ys == [] then 1
    else if compare(xs[0], ys[0]) != 0 then compare(xs[0], ys[0])
    else Lexicographic(xs[1..], ys[1..], compare)
  }

  function PreReleaseOrder(a: string, b: string, compare: (string, string) -> int): int {
    if a == b then 0
    else if a == "" then 1
    else if b == "" then -1
    else Lexicographic(Split(a, '.'), Split(b, '.'), compare)
  }

  ghost function CompareVersions(v: Version, w: Version): int {
    var c := CompareComponents(v.components, w.components);
    if c != 0 || !v.semver || !w.semver then c else PreReleaseOrder(v.preRelease, w.preRelease, CompareId)
  }

  /** Section 11 of Semantic Versioning 2.0.0. */
  ghost function SemanticPrecedence(v: Version, w: Version): int {
    var c := CompareComponents(v.components, w.components);
    if c != 0 then c else PreReleaseOrder(v.preRelease, w.preRelease, PrecedenceId)
  }

  // ------------------------------------------------- the code

  method OnlyZeros(nums: seq<nat>) returns (r: bool)
    ensures r <==> forall x | x in nums :: x == 0
  {
    for i := 0 to |nums|
      invariant forall x | x in nums[..i] :: x == 0
    {
      if nums[i] != 0 {
        assert nums[i] in nums;
        return false;
      }
      assert nums[..i + 1] == nums[..i] + [nums[i]];
    }
    assert nums[..|nums|] == nums;
    return true;
  }

  /** `compareInternal`. */
  method CompareInternal(v: Version, other: Version) returns (r: int)
    ensures r == CompareVersions(v, other)
    // a release is above its pre-releases
    ensures v.semver && other.semver && v.components == other.components ==>
              && (v.preRelease != "" && other.preRelease == "" ==> r == -1)
              && (v.preRelease == "" && other.preRelease != "" ==> r == 1)
  {
    if v.components == other.components { ComponentsTie(v, other); }
    var a, b := v.components, other.components;
    var i := 0;
    while i < |a| && i < |b|
      invariant i <= |a| && i <= |b| && forall j: nat | j < i :: At(a, j) == At(b, j)
    {
      if b[i] < a[i] {
        Trichotomy(a, b);
        assert FirstBelow(b, a, i);
        return 1;
      } else if b[i] > a[i] {
        Trichotomy(a, b);
        assert FirstBelow(a, b, i);
        return -1;
      }
      i := i + 1;
    }
    if |b| < |a| {
      var zeros := OnlyZeros(a[|b|..]);
      LongerTail(a, b, zeros);
      if !zeros { return 1; }
    } else if |b| > |a| {
      var zeros := OnlyZeros(b[|a|..]);
      LongerTail(b, a, zeros);
      Trichotomy(a, b);
      if !zeros { return -1; }
    }
    assert SameExtension(a, b);
    Trichotomy(a, b);
    if !v.semver || !other.semver { return 0; }
    if v.preRelease == "" && other.preRelease != "" { return 1; }
    if v.preRelease != "" && other.preRelease == "" { return -1; }
    if v.preRelease == other.preRelease { return 0; }
    r := CompareIdentifiers(Split(v.preRelease, '.'), Split(other.preRelease, '.'));
  }

  lemma LongerTail(a: seq<nat>, b: seq<nat>, zeros: bool)
    requires |b| < |a| && forall j: nat | j < |b| :: At(a, j) == At(b, j)
    requires zeros <==> forall x | x in a[|b|..] :: x == 0
    ensures if zeros then SameExtension(a, b) else Below(b, a) && !Below(a, b)
  {
    if zeros {
      forall i: nat ensures At(a, i) == At(b, i) {
        if |b| <= i < |a| { assert a[i] in a[|b|..]; }
      }
    } else {
      Trichotomy(a, b);
      var x :| x in a[|b|..] && x != 0;
      var k :| 0 <= k < |a[|b|..]| && a[|b|..][k] == x;
      assert At(a, |b| + k) != At(b, |b| + k);
      FirstDifference(a, b, |b| + k);
    }
  }

  /** Lines 219-248. */
  method CompareIdentifiers(vPR: seq<string>, oPR: seq<string>) returns (r: int)
    ensures r == Lexicographic(vPR, oPR, CompareId)
  {
    var i := 0;
    while i < |vPR| && i < |oPR|
      invariant i <= |vPR| && i <= |oPR|
      invariant Lexicographic(vPR, oPR, CompareId) == Lexicographic(vPR[i..], oPR[i..], CompareId)
    {
      assert vPR[i..][0] == vPR[i] && oPR[i..][0] == oPR[i];
      assert vPR[i..][1..] == vPR[i + 1..] && oPR[i..][1..] == oPR[i + 1..];
      var vNum, oNum := ParseUint(vPR[i]), ParseUint(oPR[i]);
      if vNum.Some? && oNum.Some? {
        if oNum.value < vNum.value { return 1; }
        if oNum.value > vNum.value { return -1; }
      } else {
        CompareAntisymmetric(oPR[i], vPR[i]);
        if Compare(oPR[i], vPR[i]) < 0 { return 1; }
        if Compare(oPR[i], vPR[i]) > 0 { return -1; }
      }
      i := i + 1;
    }
    if |oPR| < |vPR| { return 1; }
    if |oPR| > |vPR| { return -1; }
    return 0;
  }

  // ------------------------------------------------- the rules, one by one

  /** Component `i` is the first that differs, and smaller in `v`; absent components are zero. */
  ghost predicate SmallerAt(v: seq<nat>, w: seq<nat>, i: nat) {
    && (if i < |v| then v[i] else 0) < (if i < |w| then w[i] else 0)
    && forall j: nat | j < i :: (if j < |v| then v[j] else 0) == (if j < |w| then w[j] else 0)
  }

  lemma SmallerBelow(v: seq<nat>, w: seq<nat>, i: nat)
    requires SmallerAt(v, w, i)
    ensures Below(v, w) && !Below(w, v)
  {
    forall j: nat | j < i ensures At(v, j) == At(w, j) {
      assert (if j < |v| then v[j] else 0) == (if j < |w| then w[j] else 0);
    }
    assert FirstBelow(v, w, i);
    Trichotomy(v, w);
  }

  /** The first component that differs decides, in the code and in section 11. */
  lemma ComponentsDecide(v: Version, w: Version, i: nat)
    requires SmallerAt(v.components, w.components, i)
    ensures CompareVersions(v, w) == -1 && CompareVersions(w, v) == 1
    ensures SemanticPrecedence(v, w) == -1 && SemanticPrecedence(w, v) == 1
  {
    SmallerBelow(v.components, w.components, i);
  }

  /** The verdict on a pair of identifiers in the code: by value when both are numbers that fit, otherwise as text. */
  predicate CodeBelow(x: string, y: string) {
    if AllDigits(x) && AllDigits(y) && Value(x) < 0x1_0000_0000_0000_0000 && Value(y) < 0x1_0000_0000_0000_0000
    then Value(x) < Value(y) else Compare(x, y) < 0
  }

  /** And in section 11: numbers by value, below all others; the others as text. */
  predicate SectionBelow(x: string, y: string) {
    if AllDigits(x) then AllDigits(y) ==> Value(x) < Value(y) else !AllDigits(y) && Compare(x, y) < 0
  }

  lemma PairVerdicts(x: string, y: string)
    ensures CompareId(x, y) == if CodeBelow(x, y) then -1 else if CodeBelow(y, x) then 1 else 0
    ensures PrecedenceId(x, y) == if SectionBelow(x, y) then -1 else if SectionBelow(y, x) then 1 else 0
    ensures !(CodeBelow(x, y) && CodeBelow(y, x)) && !(SectionBelow(x, y) && SectionBelow(y, x))
  {
    CompareAntisymmetric(x, y);
  }

  /** The identifiers before `i` tie, each with its counterpart. */
  ghost predicate TiedBefore(xs: seq<string>, ys: seq<string>, i: nat, below: (string, string) -> bool) {
    i <= |xs| && i <= |ys| && forall j | 0 <= j < i :: !below(xs[j], ys[j]) && !below(ys[j], xs[j])
  }

  lemma {:induction false} FirstDecides(xs: seq<string>, ys: seq<string>, i: nat, compare: (string, string) -> int)
    requires i <= |xs| && i <= |ys| && forall j | 0 <= j < i :: compare(xs[j], ys[j]) == 0
    ensures i < |xs| && i < |ys| && compare(xs[i], ys[i]) != 0 ==>
              Lexicographic(xs, ys, compare) == compare(xs[i], ys[i])
    ensures i == |xs| < |ys| ==> Lexicographic(xs, ys, compare) == -1
    ensures i == |ys| < |xs| ==> Lexicographic(xs, ys, compare) == 1
    ensures i == |xs| == |ys| ==> Lexicographic(xs, ys, compare) == 0
    decreases i
  {
    if i > 0 {
      assert forall j | 0 <= j < i - 1 :: xs[1..][j] == xs[j + 1] && ys[1..][j] == ys[j + 1];
      FirstDecides(xs[1..], ys[1..], i - 1, compare);
    }
  }

  lemma ListsDecide(a: string, b: string, i: nat, compare: (string, string) -> int, below: (string, string) -> bool)
    requires (forall x, y :: !(below(x, y) && below(y, x))) && a != "" && b != ""
    requires TiedBefore(Split(a, '.'), Split(b, '.'), i, below)
    requires forall x, y :: compare(x, y) == if below(x, y) then -1 else if below(y, x) then 1 else 0
    ensures Verdict(Split(a, '.'), Split(b, '.'), i, below, PreReleaseOrder(a, b, compare))
  {
    hide Split;
    var xs, ys := Split(a, '.'), Split(b, '.');
    FirstDecides(xs, ys, i, compare);
    hide Lexicographic;
    if i < |xs| && i < |ys| {
      assert compare(xs[i], ys[i]) == if below(xs[i], ys[i]) then -1 else if below(ys[i], xs[i]) then 1 else 0;
    }
  }

  lemma ComponentsTie(v: Version, w: Version)
    requires v.components == w.components
    ensures CompareComponents(v.components, w.components) == 0
  {
    Trichotomy(v.components, w.components);
  }

  /** Two versions that are not both semantic tie as soon as their components do. */
  lemma GenericTie(v: Version, w: Version)
    requires !(v.semver && w.semver)
    requires forall i: nat :: !SmallerAt(v.components, w.components, i) && !SmallerAt(w.components, v.components, i)
    ensures CompareVersions(v, w) == 0
  {
    if !SameExtension(v.components, w.components) {
      Trichotomy(v.components, w.components);
      if Below(v.components, w.components) {
        var i: nat :| FirstBelow(v.components, w.components, i);
        AtSmaller(v.components, w.components, i);
      } else {
        var i: nat :| FirstBelow(w.components, v.components, i);
        AtSmaller(w.components, v.components, i);
      }
    } else {
      Trichotomy(v.components, w.components);
    }
  }

  lemma AtSmaller(v: seq<nat>, w: seq<nat>, i: nat)
    requires FirstBelow(v, w, i)
    ensures SmallerAt(v, w, i)
  {
    forall j: nat | j < i ensures (if j < |v| then v[j] else 0) == (if j < |w| then w[j] else 0) {
      assert At(v, j) == At(w, j);
    }
  }

  /**
   Two semantic versions with the same components, in the code (`CodeBelow`) and in section 11 (`SectionBelow`):
   a release is above its pre-releases, the first identifier that differs decides, and a longer list of identifiers
   is above its beginning.
   */
  lemma PreReleasesDecide(v: Version, w: Version, i: nat)
    requires v.semver && w.semver && v.components == w.components
    ensures v.preRelease != "" && w.preRelease == "" ==> CompareVersions(v, w) == -1 && SemanticPrecedence(v, w) == -1
    ensures v.preRelease == "" && w.preRelease != "" ==> CompareVersions(v, w) == 1 && SemanticPrecedence(v, w) == 1
    ensures var xs, ys := Split(v.preRelease, '.'), Split(w.preRelease, '.');
            v.preRelease != "" && w.preRelease != "" ==>
              && (TiedBefore(xs, ys, i, CodeBelow) ==> Verdict(xs, ys, i, CodeBelow, CompareVersions(v, w)))
              && (TiedBefore(xs, ys, i, SectionBelow) ==> Verdict(xs, ys, i, SectionBelow, SemanticPrecedence(v, w)))
  {
    ComponentsTie(v, w);
    hide CompareComponents;
    hide Split;
    forall x, y
      ensures CompareId(x, y) == if CodeBelow(x, y) then -1 else if CodeBelow(y, x) then 1 else 0
      ensures PrecedenceId(x, y) == if SectionBelow(x, y) then -1 else if SectionBelow(y, x) then 1 else 0
      ensures !(CodeBelow(x, y) && CodeBelow(y, x)) && !(SectionBelow(x, y) && SectionBelow(y, x))
    {
      PairVerdicts(x, y);
    }
    hide CompareId;
    hide PrecedenceId;
    hide CodeBelow;
    hide SectionBelow;
    hide Lexicographic;
    var xs, ys := Split(v.preRelease, '.'), Split(w.preRelease, '.');
    if v.preRelease != "" && w.preRelease != "" {
      if TiedBefore(xs, ys, i, CodeBelow) { ListsDecide(v.preRelease, w.preRelease, i, CompareId, CodeBelow); }
      if TiedBefore(xs, ys, i, SectionBelow) { ListsDecide(v.preRelease, w.preRelease, i, PrecedenceId, SectionBelow); }
    }
  }

  /** The verdict once the identifiers before `i` tie. */
  ghost predicate Verdict(xs: seq<string>, ys: seq<string>, i: nat, below: (string, string) -> bool, r: int)
    requires i <= |xs| && i <= |ys|
  {
    && (i < |xs| && i < |ys| && below(xs[i], ys[i]) ==> r == -1)
    && (i < |xs| && i < |ys| && below(ys[i], xs[i]) ==> r == 1)
    && (i == |xs| < |ys| ==> r == -1)
    && (i == |ys| < |xs| ==> r == 1)
  }

  // ------------------------------------------------- section 11 is a total order

  /** A number among the identifiers has no spare zero in front. */
  predicate Proper(id: string) { AllDigits(id) ==> Canonical(id) }

  predicate AllProper(ids: seq<string>) { forall id | id in ids :: Proper(id) }

  lemma PrecedenceIdOrder(x: string, y: string, z: string)
    requires Proper(x) && Proper(y) && Proper(z)
    ensures PrecedenceId(y, x) == -PrecedenceId(x, y)
    ensures PrecedenceId(x, y) == 0 <==> x == y
    ensures PrecedenceId(x, y) < 0 && PrecedenceId(y, z) < 0 ==> PrecedenceId(x, z) < 0
  {
    hide Digits;
    if AllDigits(x) { DigitsOfValue(x); }
    if AllDigits(y) { DigitsOfValue(y); }
    CompareAntisymmetric(x, y);
    if Compare(x, y) < 0 && Compare(y, z) < 0 { CompareTransitive(x, y, z); }
  }

  lemma {:induction false} LexicographicOrder(xs: seq<string>, ys: seq<string>, zs: seq<string>)
    requires AllProper(xs) && AllProper(ys) && AllProper(zs)
    ensures Lexicographic(ys, xs, PrecedenceId) == -Lexicographic(xs, ys, PrecedenceId)
    ensures Lexicographic(xs, ys, PrecedenceId) == 0 <==> xs == ys
    ensures Lexicographic(xs, ys, PrecedenceId) < 0 && Lexicographic(ys, zs, PrecedenceId) < 0 ==>
              Lexicographic(xs, zs, PrecedenceId) < 0
  {
    hide PrecedenceId;
    hide Proper;
    if xs != [] && ys != [] {
      var zs' := if zs == [] then ys else zs;
      assert xs[0] in xs && ys[0] in ys && zs'[0] in zs';
      PrecedenceIdOrder(xs[0], ys[0], zs'[0]);
      PrecedenceIdOrder(ys[0], zs'[0], xs[0]);
      PrecedenceIdOrder(xs[0], zs'[0], ys[0]);
      LexicographicOrder(xs[1..], ys[1..], zs'[1..]);
      assert xs == [xs[0]] + xs[1..] && ys == [ys[0]] + ys[1..];
    }
  }

  lemma PreReleaseTotal(a: string, b: string, c: string)
    requires AllProper(Split(a, '.')) && AllProper(Split(b, '.')) && AllProper(Split(c, '.'))
    ensures PreReleaseOrder(b, a, PrecedenceId) == -PreReleaseOrder(a, b, PrecedenceId)
    ensures PreReleaseOrder(a, b, PrecedenceId) == 0 <==> a == b
    ensures PreReleaseOrder(a, b, PrecedenceId) < 0 && PreReleaseOrder(b, c, PrecedenceId) < 0 ==>
              PreReleaseOrder(a, c, PrecedenceId) < 0
  {
    hide PrecedenceId;
    hide Lexicographic;
    hide Split;
    hide AllProper;
    LexicographicOrder(Split(a, '.'), Split(b, '.'), Split(c, '.'));
    JoinSplit(a, '.');
    JoinSplit(b, '.');
    JoinSplit(c, '.');
    LexicographicOrder(Split(a, '.'), Split(c, '.'), Split(b, '.'));
  }

  /** Section 11 orders versions totally, up to build metadata. */
  lemma PrecedenceTotal(u: Version, v: Version, w: Version)
    requires forall x | x in {u, v, w} :: AllProper(Split(x.preRelease, '.')) && |x.components| == 3
    ensures SemanticPrecedence(v, u) == -SemanticPrecedence(u, v)
    ensures SemanticPrecedence(u, v) == 0 <==> u.components == v.components && u.preRelease == v.preRelease
    ensures SemanticPrecedence(u, v) < 0 && SemanticPrecedence(v, w) < 0 ==> SemanticPrecedence(u, w) < 0
  {
    assert u in {u, v, w} && v in {u, v, w} && w in {u, v, w};
    hide PreReleaseOrder;
    hide CompareComponents;
    hide AllProper;
    hide Split;
    GenericOrder(u.components, v.components, w.components);
    GenericOrder(v.components, w.components, u.components);
    GenericOrder(u.components, w.components, v.components);
    PreReleaseTotal(u.preRelease, v.preRelease, w.preRelease);
    SameLength(u.components, v.components);
  }

  lemma SameLength(a: seq<nat>, b: seq<nat>)
    requires |a| == |b|
    ensures SameExtension(a, b) <==> a == b
  {
    if SameExtension(a, b) {
      forall i | 0 <= i < |a| ensures a[i] == b[i] { assert At(a, i) == At(b, i); }
    }
  }

  // ------------------------------------------------- when the code agrees with it

  predicate Fits(id: string) { AllDigits(id) ==> Value(id) < UINT_LIMIT }

  /**
   The code puts the two the wrong way round. Against a number, other text counts as text; and two numbers that
   do not both fit `uint` count as text too, so that length no longer decides.
   */
  predicate Opposed(x: string, y: string) {
    if AllDigits(x) && AllDigits(y) then !(Fits(x) && Fits(y)) && |x| != |y| && (Compare(x, y) < 0) != (|x| < |y|)
    else if AllDigits(x) then Compare(x, y) > 0
    else AllDigits(y) && Compare(x, y) < 0
  }

  predicate InvertedAt(xs: seq<string>, ys: seq<string>, i: nat) {
    i < |xs| && i < |ys| && xs[..i] == ys[..i] && Opposed(xs[i], ys[i])
  }

  /** The first difference is put the wrong way round. */
  ghost predicate Inverted(xs: seq<string>, ys: seq<string>) { exists i: nat :: InvertedAt(xs, ys, i) }

  lemma OpposedDiffer(x: string)
    ensures !Opposed(x, x)
  {
  }

  /** Canonical numbers compare by length first, and by text when the lengths are equal. */
  lemma NumbersByLength(x: string, y: string)
    requires Canonical(x) && Canonical(y)
    ensures Sign(Value(x), Value(y)) == if |x| != |y| then Sign(|x|, |y|) else Compare(x, y)
  {
    if |x| < |y| { LongerIsLarger(x, y); }
    if |y| < |x| { LongerIsLarger(y, x); }
    if |x| == |y| {
      SameLengthText(x, y);
    }
  }

  lemma IdAgrees(x: string, y: string)
    requires Proper(x) && Proper(y)
    ensures CompareId(x, y) == 0 <==> x == y
    ensures PrecedenceId(x, y) == 0 <==> x == y
    ensures CompareId(x, y) == PrecedenceId(x, y) <==> !Opposed(x, y)
  {
    PrecedenceIdOrder(x, y, y);
    if AllDigits(x) && AllDigits(y) { NumbersByLength(x, y); }
  }

  lemma {:induction false} ListsAgree(xs: seq<string>, ys: seq<string>)
    requires AllProper(xs) && AllProper(ys)
    ensures Lexicographic(xs, ys, CompareId) == Lexicographic(xs, ys, PrecedenceId) <==> !Inverted(xs, ys)
  {
    hide CompareId;
    hide PrecedenceId;
    hide Proper;
    hide Opposed;
    if xs != [] && ys != [] {
      assert xs[0] in xs && ys[0] in ys;
      IdAgrees(xs[0], ys[0]);
      if xs[0] == ys[0] {
        OpposedDiffer(xs[0]);
        ListsAgree(xs[1..], ys[1..]);
        InvertedTail(xs, ys);
      } else {
        InvertedHead(xs, ys);
      }
    }
  }

  lemma InvertedTail(xs: seq<string>, ys: seq<string>)
    requires xs != [] && ys != [] && xs[0] == ys[0]
    ensures Inverted(xs, ys) <==> Inverted(xs[1..], ys[1..])
  {
    OpposedDiffer(xs[0]);
    hide Opposed;
    if Inverted(xs, ys) {
      var i: nat :| InvertedAt(xs, ys, i);
      assert xs[1..][..i - 1] == xs[..i][1..] && ys[1..][..i - 1] == ys[..i][1..];
      assert InvertedAt(xs[1..], ys[1..], i - 1);
    }
    if Inverted(xs[1..], ys[1..]) {
      var i: nat :| InvertedAt(xs[1..], ys[1..], i);
      assert xs[..i + 1] == [xs[0]] + xs[1..][..i] && ys[..i + 1] == [ys[0]] + ys[1..][..i];
      assert InvertedAt(xs, ys, i + 1);
    }
  }

  lemma InvertedHead(xs: seq<string>, ys: seq<string>)
    requires xs != [] && ys != [] && xs[0] != ys[0]
    ensures Inverted(xs, ys) <==> InvertedAt(xs, ys, 0)
  {
    forall i: nat ensures i > 0 && i <= |xs| && i <= |ys| ==> xs[..i] != ys[..i] {
      if 0 < i <= |xs| && i <= |ys| { assert xs[..i][0] == xs[0] && ys[..i][0] == ys[0]; }
    }
  }

  /** A parsed semantic version whose numeric identifiers, as section 9 asks, have no zero in front. */
  ghost predicate ProperVersion(v: Version) { v.semver && WellFormed(v) && AllProper(Split(v.preRelease, '.')) }

  /** One whose numeric identifiers fit `uint` as well. */
  ghost predicate UsualVersion(v: Version) { ProperVersion(v) && forall id | id in Split(v.preRelease,
                               '.') :: Fits(id) }

  /**
   The code's verdict on two such versions is that of section 11 exactly when the first differing identifiers
   are not put the wrong way round.
   */
  lemma AgreesExactly(v: Version, w: Version)
    requires ProperVersion(v) && ProperVersion(w)
    ensures CompareVersions(v, w) == SemanticPrecedence(v, w) <==>
            !(v.components == w.components && v.preRelease != "" && w.preRelease != ""
              && Inverted(Split(v.preRelease, '.'), Split(w.preRelease, '.')))
  {
    hide Lexicographic;
    hide Split;
    hide WellFormed;
    hide AllProper;
    hide Inverted;
    assert |v.components| == 3 && |w.components| == 3 by { Three(v); Three(w); }
    GenericOrder(v.components, w.components, v.components);
    SameLength(v.components, w.components);
    ListsAgree(Split(v.preRelease, '.'), Split(w.preRelease, '.'));
    if v.preRelease == w.preRelease {
      NeverInverted(Split(v.preRelease, '.'));
    }
  }

  lemma Three(v: Version)
    requires v.semver && WellFormed(v)
    ensures |v.components| == 3
  {
  }

  lemma NeverInverted(xs: seq<string>)
    ensures !Inverted(xs, xs)
  {
    forall i: nat ensures !InvertedAt(xs, xs, i) {
      if i < |xs| { OpposedDiffer(xs[i]); }
    }
  }

  predicate IsLetter(c: char) { 'A' <= c <= 'Z' || 'a' <= c <= 'z' }

  /** Every pre-release identifier, if there are any, is a number or starts with a letter. */
  ghost predicate Lettered(v: Version) {
    v.preRelease == "" || forall id | id in Split(v.preRelease, '.') :: AllDigits(id) || (id != "" && IsLetter(id[0]))
  }

  /** Such identifiers are never put the wrong way round. */
  lemma LettersAgree(v: Version, w: Version)
    requires UsualVersion(v) && UsualVersion(w) && Lettered(v) && Lettered(w)
    ensures CompareVersions(v, w) == SemanticPrecedence(v, w)
  {
    var xs, ys := Split(v.preRelease, '.'), Split(w.preRelease, '.');
    if v.preRelease != "" && w.preRelease != "" {
      forall i: nat ensures !InvertedAt(xs, ys, i) {
        if i < |xs| && i < |ys| {
          assert xs[i] in xs && ys[i] in ys;
        }
      }
    }
    hide UsualVersion;
    hide Split;
    hide CompareVersions;
    hide SemanticPrecedence;
    AgreesExactly(v, w);
  }

  /** On them the code's comparison is a strict total order, up to build metadata. */
  lemma SemanticOrder(u: Version, v: Version, w: Version)
    requires forall x | x in {u, v, w} :: UsualVersion(x) && Lettered(x)
    ensures CompareVersions(v, u) == -CompareVersions(u, v)
    ensures CompareVersions(u, v) == 0 <==> u.components == v.components && u.preRelease == v.preRelease
    ensures CompareVersions(u, v) < 0 && CompareVersions(v, w) < 0 ==> CompareVersions(u, w) < 0
  {
    hide Split;
    hide CompareVersions;
    hide SemanticPrecedence;
    hide Lettered;
    forall x | x in {u, v, w} ensures AllProper(Split(x.preRelease, '.')) && |x.components| == 3 {
      Three(x);
    }
    LettersAgree(u, v);
    LettersAgree(v, u);
    LettersAgree(v, w);
    LettersAgree(u, w);
    PrecedenceTotal(u, v, w);
  }

  /** Parsing makes identifiers `Proper` when numbers fit. */
  lemma ParsedUsual(v: Version)
    requires v.semver && WellFormed(v) && forall id | id in Split(v.preRelease, '.') :: Fits(id)
    ensures UsualVersion(v)
  {
    if v.preRelease == "" {
      SplitNone("", '.');
    }
  }

  /** Version 1.0.0 with a single pre-release identifier. */
  function Single(id: string): Version { Version([1, 0, 0], true, id, "") }

  lemma SingleOrder(x: string, y: string)
    requires x != "" && y != "" && x != y && '.' !in x && '.' !in y
    ensures CompareVersions(Single(x), Single(y)) == CompareId(x, y)
    ensures SemanticPrecedence(Single(x), Single(y)) == PrecedenceId(x, y)
  {
    hide CompareId;
    hide PrecedenceId;
    SplitNone(x, '.');
    SplitNone(y, '.');
    hide Split;
    SameLength([1, 0, 0], [1, 0, 0]);
    Trichotomy([1, 0, 0], [1, 0, 0]);
    LexicographicOne(x, y, CompareId);
    LexicographicOne(x, y, PrecedenceId);
    hide Lexicographic;
  }

  lemma LexicographicOne(x: string, y: string, compare: (string, string) -> int)
    ensures Lexicographic([x], [y], compare) == compare(x, y)
  {
  }

  lemma SingleWellFormed(id: string)
    requires id != "" && (forall i | 0 <= i < |id| :: IsIdChar(id[i])) && !(ParseUint(id).Some? && ZeroPrefixed(id))
    ensures WellFormed(Single(id)) && '.' !in id
  {
    hide ParseUint;
    assert '.' !in id;
    SplitNone(id, '.');
  }

  /** Without the bound numbers go wrong: 9 is put above every number of more than 20 digits that starts below 9. */
  lemma OversizeInverts(y: string)
    requires Canonical(y) && |y| > 20 && y[0] < '9'
    ensures WellFormed(Single("9")) && WellFormed(Single(y))
    ensures CompareVersions(Single("9"), Single(y)) > 0 && SemanticPrecedence(Single("9"), Single(y)) < 0
  {
    hide Digits;
    LongDoesNotFit(y);
    LongerIsLarger("9", y);
    SingleWellFormed("9");
    SingleWellFormed(y);
    SingleOrder("9", y);
    hide Value;
    hide CompareVersions;
    hide SemanticPrecedence;
    hide WellFormed;
  }

  /** Without the hypothesis on letters the comparison is not even an order: 9 < 10 < 1a < 9. */
  lemma NotAnOrder()
    ensures WellFormed(Single("9")) && WellFormed(Single("10")) && WellFormed(Single("1a"))
    ensures CompareVersions(Single("9"), Single("10")) < 0
    ensures CompareVersions(Single("10"), Single("1a")) < 0
    ensures CompareVersions(Single("1a"), Single("9")) < 0
  {
    hide CompareVersions;
    hide WellFormed;
    SingleWellFormed("9");
    SingleWellFormed("10");
    SingleWellFormed("1a");
    SingleOrder("9", "10");
    SingleOrder("10", "1a");
    SingleOrder("1a", "9");
    assert "10"[..1] == "1";
    assert Value("10") == 10 && Value("9") == 9;
    assert !IsDigit("1a"[1]);
    assert "10"[1..] == "0" && "1a"[1..] == "a";
    assert Compare("10", "1a") == -1 && Compare("1a", "9") == -1;
  }

  // ------------------------------------------------- ties

  lemma CompareIdZero(x: string, y: string)
    requires !(ParseUint(x).Some? && ZeroPrefixed(x)) && !(ParseUint(y).Some? && ZeroPrefixed(y))
    ensures CompareId(x, y) == 0 <==> x == y
  {
    hide Digits;
    if ParseUint(x).Some? && ParseUint(y).Some? {
      DigitsOfValue(x);
      DigitsOfValue(y);
    }
  }

  lemma {:induction false} IdentifiersZero(xs: seq<string>, ys: seq<string>)
    requires forall id | id in xs + ys :: !(ParseUint(id).Some? && ZeroPrefixed(id))
    ensures Lexicographic(xs, ys, CompareId) == 0 <==> xs == ys
  {
    hide CompareId;
    hide ParseUint;
    hide ZeroPrefixed;
    if xs != [] && ys != [] {
      assert xs[0] in xs + ys && ys[0] in xs + ys;
      CompareIdZero(xs[0], ys[0]);
      IdentifiersZero(xs[1..], ys[1..]);
      assert xs == [xs[0]] + xs[1..] && ys == [ys[0]] + ys[1..];
    }
  }

  /** Two parsed semantic versions tie exactly when components and pre-release text are the same. */
  lemma TieMeansIdentical(v: Version, w: Version)
    requires v.semver && w.semver && WellFormed(v) && WellFormed(w)
    ensures CompareVersions(v, w) == 0 <==> v.components == w.components && v.preRelease == w.preRelease
  {
    hide Lexicographic;
    hide Split;
    var xs, ys := Split(v.preRelease, '.'), Split(w.preRelease, '.');
    GenericOrder(v.components, w.components, v.components);
    SameLength(v.components, w.components);
    if v.preRelease != "" && w.preRelease != "" {
      assert GoodPreRelease(v.preRelease) && GoodPreRelease(w.preRelease);
      IdentifiersZero(xs, ys);
      JoinSplit(v.preRelease, '.');
      JoinSplit(w.preRelease, '.');
    }
  }
}
