/** The version pattern `(\d+)\.(\d+)(\.(\d+)([_](\d+))?)?(-(.+))?` under
    `Matcher.matches()`, as a grammar (`Matches`) and as the deterministic
    left-to-right scanner (`Scan`) that decides it. Only the capturing groups
    the parser reads are kept: 1 (huge), 2 (major), 4 (minor), 6 (patch) and
    8 (identifier). */
module VersionPattern {
  import opened Wrappers
  import opened JavaString
  import opened Decimal

  const DOT: CodeUnit := '.' as int
  const UNDERSCORE: CodeUnit := '_' as int
  const DASH: CodeUnit := '-' as int

  /** The characters the regex `.` does not match when DOTALL is off:
      `\n`, `\r`, NEXT LINE, LINE SEPARATOR and PARAGRAPH SEPARATOR. */
  predicate IsLineTerminator(c: CodeUnit) {
    c == 0x0A || c == 0x0D || c == 0x85 || c == 0x2028 || c == 0x2029
  }

  /** Text matched by `.+`. */
  predicate IsIdentifierText(s: JString) {
    |s| > 0 && forall i :: 0 <= i < |s| ==> !IsLineTerminator(s[i])
  }

  /** The captured groups of a match; an absent group is `None`, as
      `Matcher.group` returns null for a group that did not participate. */
  datatype Groups = Groups(
    huge: JString,
    major: JString,
    minor: Option<JString>,
    patch: Option<JString>,
    identifier: Option<JString>)

  /** Each group holds text of its sub-pattern, and group 6 sits inside the
      optional group 3 that also holds group 4. */
  predicate WellFormed(g: Groups) {
    && IsNumeral(g.huge)
    && IsNumeral(g.major)
    && (g.minor.Some? ==> IsNumeral(g.minor.value))
    && (g.patch.Some? ==> g.minor.Some? && IsNumeral(g.patch.value))
    && (g.identifier.Some? ==> IsIdentifierText(g.identifier.value))
  }

  function MinorPart(g: Groups): JString {
    match g.minor
    case None => []
    case Some(m) => [DOT] + m + PatchPart(g)
  }

  function PatchPart(g: Groups): JString {
    match g.patch
    case None => []
    case Some(p) => [UNDERSCORE] + p
  }

  function IdentifierPart(g: Groups): JString {
    match g.identifier
    case None => []
    case Some(x) => [DASH] + x
  }

  /** The whole input a match with these groups consumed. */
  function Spell(g: Groups): JString {
    g.huge + [DOT] + g.major + MinorPart(g) + IdentifierPart(g)
  }

  /** `s` matches the pattern in its entirety, capturing `g`. */
  predicate Matches(s: JString, g: Groups) {
    WellFormed(g) && Spell(g) == s
  }

  /** The end of the digit run starting at `i`: `\d+` is greedy, and the
      character the pattern needs next is never a digit. */
  function SpanDigits(s: JString, i: nat): (j: nat)
    requires i <= |s|
    ensures i <= j <= |s|
    ensures AllDigits(s[i..j])
    ensures j < |s| ==> !IsDigit(s[j])
    decreases |s| - i
  {
    if i < |s| && IsDigit(s[i]) then
      var j := SpanDigits(s, i + 1);
      assert s[i..j] == [s[i]] + s[i + 1..j];
      j
    else i
  }

  /** `(-(.+))?` followed by the end of input, from position `i`:
      `Some(None)` at the end, `Some(Some(x))` for a dash and identifier. */
  function ScanIdentifier(s: JString, i: nat): Option<Option<JString>>
    requires i <= |s|
  {
    if i == |s| then Some(None)
    else if s[i] == DASH && IsIdentifierText(s[i + 1..]) then Some(Some(s[i + 1..]))
    else None
  }

  function Finish(s: JString, i: nat, g: Groups): Option<Groups>
    requires i <= |s|
  {
    match ScanIdentifier(s, i)
    case None => None
    case Some(x) => Some(g.(identifier := x))
  }

  /** The groups of the match of the whole of `s`, or `None` when `s` does
      not match. Group 1 is the digit run at the start and must be followed
      by a `.`. */
  function Scan(s: JString): Option<Groups>
  {
    var e1 := SpanDigits(s, 0);
    if e1 == 0 || e1 == |s| || s[e1] != DOT then None
    else ScanMajor(s, e1)
  }

  /** Group 2 from `e1 + 1`. A `.` after it commits to group 3: skipping
      the group would leave the `.` for `-` or the end, which it cannot
      match. */
  function ScanMajor(s: JString, e1: nat): Option<Groups>
    requires e1 < |s|
  {
    var e2 := SpanDigits(s, e1 + 1);
    if e2 == e1 + 1 then None
    else if e2 < |s| && s[e2] == DOT then ScanMinor(s, e1, e2)
    else Finish(s, e2, Groups(s[..e1], s[e1 + 1..e2], None, None, None))
  }

  /** Group 4 from `e2 + 1`. An `_` after it commits to group 5 for the same
      reason. */
  function ScanMinor(s: JString, e1: nat, e2: nat): Option<Groups>
    requires e1 < e2 < |s|
  {
    var e3 := SpanDigits(s, e2 + 1);
    if e3 == e2 + 1 then None
    else if e3 < |s| && s[e3] == UNDERSCORE then ScanPatch(s, e1, e2, e3)
    else Finish(s, e3, Groups(s[..e1], s[e1 + 1..e2], Some(s[e2 + 1..e3]), None, None))
  }

  /** Group 6 from `e3 + 1`. */
  function ScanPatch(s: JString, e1: nat, e2: nat, e3: nat): Option<Groups>
    requires e1 < e2 < e3 < |s|
  {
    var e4 := SpanDigits(s, e3 + 1);
    if e4 == e3 + 1 then None
    else Finish(s, e4, Groups(s[..e1], s[e1 + 1..e2], Some(s[e2 + 1..e3]), Some(s[e3 + 1..e4]), None))
  }

  lemma Glue(s: JString, i: nat, j: nat)
    requires i < j <= |s|
    ensures s[i..] == [s[i]] + s[i + 1..j] + s[j..]
  {
  }

  lemma Associate(a: JString, b: JString, c: JString)
    ensures a + (b + c) == a + b + c
  {
  }

  lemma Reassociate(a: JString, b: JString, c: JString, d: JString)
    ensures a + b + (c + d) == a + b + c + d
  {
  }

  lemma FinishSound(s: JString, i: nat, g: Groups)
    requires i <= |s| && Finish(s, i, g).Some?
    ensures var r := Finish(s, i, g).value;
      && r == g.(identifier := r.identifier)
      && s[i..] == IdentifierPart(r)
      && (r.identifier.Some? ==> IsIdentifierText(r.identifier.value))
  {
    if i < |s| {
      Glue(s, i, i + 1);
    }
  }

  lemma PatchSound(s: JString, e1: nat, e2: nat, e3: nat)
    requires e1 < e2 < e3 < |s| && s[e3] == UNDERSCORE && ScanPatch(s, e1, e2, e3).Some?
    ensures var r := ScanPatch(s, e1, e2, e3).value;
      && r.huge == s[..e1] && r.major == s[e1 + 1..e2] && r.minor == Some(s[e2 + 1..e3])
      && r.patch.Some? && IsNumeral(r.patch.value)
      && (r.identifier.Some? ==> IsIdentifierText(r.identifier.value))
      && s[e3..] == [UNDERSCORE] + r.patch.value + IdentifierPart(r)
  {
    var e4 := SpanDigits(s, e3 + 1);
    Glue(s, e3, e4);
    FinishSound(s, e4, Groups(s[..e1], s[e1 + 1..e2], Some(s[e2 + 1..e3]), Some(s[e3 + 1..e4]), None));
  }

  lemma MinorSound(s: JString, e1: nat, e2: nat)
    requires e1 < e2 < |s| && s[e2] == DOT && ScanMinor(s, e1, e2).Some?
    ensures var r := ScanMinor(s, e1, e2).value;
      && r.huge == s[..e1] && r.major == s[e1 + 1..e2]
      && r.minor.Some? && IsNumeral(r.minor.value)
      && (r.patch.Some? ==> IsNumeral(r.patch.value))
      && (r.identifier.Some? ==> IsIdentifierText(r.identifier.value))
      && s[e2..] == MinorPart(r) + IdentifierPart(r)
  {
    var e3 := SpanDigits(s, e2 + 1);
    var r := ScanMinor(s, e1, e2).value;
    Glue(s, e2, e3);
    if e3 < |s| && s[e3] == UNDERSCORE {
      PatchSound(s, e1, e2, e3);
      assert s[e3..] == PatchPart(r) + IdentifierPart(r);
    } else {
      FinishSound(s, e3, Groups(s[..e1], s[e1 + 1..e2], Some(s[e2 + 1..e3]), None, None));
      assert s[e3..] == PatchPart(r) + IdentifierPart(r);
    }
    Reassociate([DOT], r.minor.value, PatchPart(r), IdentifierPart(r));
  }

  lemma MajorSound(s: JString, e1: nat)
    requires e1 < |s| && ScanMajor(s, e1).Some?
    ensures var r := ScanMajor(s, e1).value;
      && r.huge == s[..e1] && IsNumeral(r.major)
      && (r.minor.Some? ==> IsNumeral(r.minor.value))
      && (r.patch.Some? ==> r.minor.Some? && IsNumeral(r.patch.value))
      && (r.identifier.Some? ==> IsIdentifierText(r.identifier.value))
      && s[e1..] == [s[e1]] + r.major + MinorPart(r) + IdentifierPart(r)
  {
    var e2 := SpanDigits(s, e1 + 1);
    var r := ScanMajor(s, e1).value;
    Glue(s, e1, e2);
    if e2 < |s| && s[e2] == DOT {
      assert r == ScanMinor(s, e1, e2).value;
      MinorSound(s, e1, e2);
    } else {
      FinishSound(s, e2, Groups(s[..e1], s[e1 + 1..e2], None, None, None));
      assert r.minor.None?;
    }
    assert r.major == s[e1 + 1..e2];
    assert s[e2..] == MinorPart(r) + IdentifierPart(r);
    Reassociate([s[e1]], r.major, MinorPart(r), IdentifierPart(r));
  }

  lemma Assemble(s: JString, e1: nat, r: Groups)
    requires 0 < e1 < |s| && s[e1] == DOT && AllDigits(s[0..e1]) && r.huge == s[..e1]
    requires IsNumeral(r.major)
    requires r.minor.Some? ==> IsNumeral(r.minor.value)
    requires r.patch.Some? ==> r.minor.Some? && IsNumeral(r.patch.value)
    requires r.identifier.Some? ==> IsIdentifierText(r.identifier.value)
    requires s[e1..] == [s[e1]] + r.major + MinorPart(r) + IdentifierPart(r)
    ensures Matches(s, r)
  {
    assert s[0..e1] == s[..e1];
    assert s == r.huge + s[e1..];
  }

  /** Whatever the scanner returns is a match of the whole input. */
  lemma ScanSound(s: JString)
    requires Scan(s).Some?
    ensures Matches(s, Scan(s).value)
  {
    var e1 := SpanDigits(s, 0);
    assert 0 < e1 < |s| && s[e1] == DOT && Scan(s) == ScanMajor(s, e1);
    MajorSound(s, e1);
    Assemble(s, e1, Scan(s).value);
  }

  lemma {:induction false} SpanDigitsExact(s: JString, i: nat, j: nat)
    requires i <= j <= |s|
    requires AllDigits(s[i..j])
    requires j == |s| || !IsDigit(s[j])
    ensures SpanDigits(s, i) == j
    decreases j - i
  {
    if i < j {
      assert s[i] == s[i..j][0];
      assert s[i + 1..j] == s[i..j][1..];
      SpanDigitsExact(s, i + 1, j);
    }
  }

  /** A digit run followed by a non-digit (or the end) is scanned exactly:
      with `s[k..] == [c] + a + b`, the run after `c` ends at `k + 1 + |a|`. */
  lemma SpanAfter(s: JString, k: nat, c: CodeUnit, a: JString, b: JString)
    requires k <= |s| && s[k..] == [c] + a + b
    requires AllDigits(a)
    requires |b| == 0 || !IsDigit(b[0])
    ensures SpanDigits(s, k + 1) == k + 1 + |a|
    ensures s[k] == c
    ensures s[k + 1..k + 1 + |a|] == a
    ensures s[k + 1 + |a|..] == b
    ensures |b| > 0 ==> s[k + 1 + |a|] == b[0]
  {
    assert s[k] == s[k..][0];
    assert s[k + 1..k + 1 + |a|] == s[k..][1..1 + |a|];
    assert s[k + 1 + |a|..] == s[k..][1 + |a|..];
    if |b| > 0 {
      assert s[k + 1 + |a|] == s[k..][1 + |a|];
    }
    SpanDigitsExact(s, k + 1, k + 1 + |a|);
  }

  /** The identifier stage completes `h` to `g` when the rest of the input
      is `g`'s identifier part. */
  lemma FinishComplete(s: JString, i: nat, h: Groups, g: Groups)
    requires i <= |s| && WellFormed(g) && s[i..] == IdentifierPart(g)
    requires h.(identifier := g.identifier) == g
    ensures Finish(s, i, h) == Some(g)
  {
    if g.identifier.Some? {
      assert s[i] == s[i..][0];
      assert s[i + 1..] == s[i..][1..];
      assert ScanIdentifier(s, i) == Some(g.identifier);
    } else {
      assert ScanIdentifier(s, i) == Some(None);
    }
  }

  lemma PatchComplete(s: JString, e1: nat, e2: nat, e3: nat, g: Groups)
    requires e1 < e2 < e3 < |s| && WellFormed(g) && g.patch.Some?
    requires g.huge == s[..e1] && g.major == s[e1 + 1..e2] && g.minor == Some(s[e2 + 1..e3])
    requires s[e3..] == [UNDERSCORE] + g.patch.value + IdentifierPart(g)
    ensures ScanPatch(s, e1, e2, e3) == Some(g)
  {
    var ip := IdentifierPart(g);
    assert |ip| > 0 ==> ip[0] == DASH;
    SpanAfter(s, e3, UNDERSCORE, g.patch.value, ip);
    var e4 := e3 + 1 + |g.patch.value|;
    var h := Groups(s[..e1], s[e1 + 1..e2], Some(s[e2 + 1..e3]), Some(s[e3 + 1..e4]), None);
    assert h.(identifier := g.identifier) == g;
    assert ScanPatch(s, e1, e2, e3) == Finish(s, e4, h);
    FinishComplete(s, e4, h, g);
  }

  lemma MinorComplete(s: JString, e1: nat, e2: nat, g: Groups)
    requires e1 < e2 < |s| && WellFormed(g) && g.minor.Some?
    requires g.huge == s[..e1] && g.major == s[e1 + 1..e2]
    requires s[e2..] == MinorPart(g) + IdentifierPart(g)
    ensures ScanMinor(s, e1, e2) == Some(g)
  {
    var m, pp, ip := g.minor.value, PatchPart(g), IdentifierPart(g);
    assert |pp| > 0 ==> pp[0] == UNDERSCORE;
    assert |ip| > 0 ==> ip[0] == DASH;
    Reassociate([DOT], m, pp, ip);
    SpanAfter(s, e2, DOT, m, pp + ip);
    var e3 := e2 + 1 + |m|;
    if g.patch.Some? {
      assert s[e3] == UNDERSCORE;
      assert s[e3..] == [UNDERSCORE] + g.patch.value + ip;
      assert ScanMinor(s, e1, e2) == ScanPatch(s, e1, e2, e3);
      PatchComplete(s, e1, e2, e3, g);
    } else {
      assert s[e3..] == ip;
      assert e3 == |s| || s[e3] == DASH;
      var h := Groups(s[..e1], s[e1 + 1..e2], Some(s[e2 + 1..e3]), None, None);
      assert h.(identifier := g.identifier) == g;
      assert ScanMinor(s, e1, e2) == Finish(s, e3, h);
      FinishComplete(s, e3, h, g);
    }
  }

  lemma MajorComplete(s: JString, e1: nat, g: Groups)
    requires e1 < |s| && WellFormed(g)
    requires g.huge == s[..e1]
    requires s[e1..] == [DOT] + g.major + MinorPart(g) + IdentifierPart(g)
    ensures ScanMajor(s, e1) == Some(g)
  {
    var mp, ip := MinorPart(g), IdentifierPart(g);
    assert |mp| > 0 ==> mp[0] == DOT;
    assert |ip| > 0 ==> ip[0] == DASH;
    Reassociate([DOT], g.major, mp, ip);
    SpanAfter(s, e1, DOT, g.major, mp + ip);
    var e2 := e1 + 1 + |g.major|;
    if g.minor.Some? {
      assert s[e2] == DOT;
      assert s[e2..] == mp + ip;
      assert ScanMajor(s, e1) == ScanMinor(s, e1, e2);
      MinorComplete(s, e1, e2, g);
    } else {
      assert s[e2..] == ip;
      assert e2 == |s| || s[e2] == DASH;
      var h := Groups(s[..e1], s[e1 + 1..e2], None, None, None);
      assert h.(identifier := g.identifier) == g;
      assert ScanMajor(s, e1) == Finish(s, e2, h);
      FinishComplete(s, e2, h, g);
    }
  }

  /** Every match of the whole input is found by the scanner, so the
      captured groups are unique. */
  lemma ScanComplete(s: JString, g: Groups)
    requires Matches(s, g)
    ensures Scan(s) == Some(g)
  {
    var e1 := |g.huge|;
    var rest := [DOT] + g.major + MinorPart(g) + IdentifierPart(g);
    assert s == g.huge + rest;
    assert s[..e1] == g.huge && s[0..e1] == g.huge;
    assert s[e1..] == rest;
    assert s[e1] == DOT;
    SpanDigitsExact(s, 0, e1);
    MajorComplete(s, e1, g);
  }

  /** The scanner decides the pattern: it returns exactly the groups of the
      whole-input match, and nothing when there is none. */
  lemma ScanIff(s: JString, g: Groups)
    ensures Scan(s) == Some(g) <==> Matches(s, g)
  {
    if Scan(s) == Some(g) {
      ScanSound(s);
    }
    if Matches(s, g) {
      ScanComplete(s, g);
    }
  }
}
