/** The `JavaVersion` value type: versions of the shape
    `huge.major[.minor[_patch]][-identifier]`, their validating constructor,
    parser, canonical rendering, equality, hash code and ordering, and the
    runtime version resolved from the two version properties. */
module JavaVersions {
  import opened Wrappers
  import opened JavaInt
  import JavaString
  import opened Decimal
  import opened VersionPattern

  type JString = JavaString.JString

  /** The numeric components, named as in the constructor's messages. */
  datatype Field = Huge | Major | Minor | Patch

  /** The exceptions the type raises. All but the last are
      IllegalArgumentExceptions (NumberFormatException is a subclass). */
  datatype Error =
    | NegativeField(field: Field)
    | EmptyIdentifier
    | NullVersionString
    | InvalidVersionString(input: JString)
    | NumberFormat(digits: JString)
    | NullComparison

  /** The five final fields; `None` is a null identifier. */
  datatype Version = Version(
    huge: int,
    major: int,
    minor: int,
    patch: int,
    identifier: Option<JString>)

  /** What the constructor guarantees of every instance: non-negative `int`
      components and an identifier that is null or non-empty. */
  predicate Valid(v: Version) {
    && 0 <= v.huge <= INT_MAX
    && 0 <= v.major <= INT_MAX
    && 0 <= v.minor <= INT_MAX
    && 0 <= v.patch <= INT_MAX
    && v.identifier != Some([])
  }

  /** A constructed `JavaVersion`. */
  type JavaVersion = v: Version | Valid(v) witness Version(0, 0, 0, 0, None)

  /** `MIN_VALUE`, documented as the smallest version. */
  const MIN_VALUE: JavaVersion := Version(0, 0, 0, 0, None)

  /** The five-argument constructor: the checks run in field order and the
      first that fails raises. */
  function New(huge: Int32, major: Int32, minor: Int32, patch: Int32, identifier: Option<JString>): (r: Result<JavaVersion, Error>)
    ensures r.Success? <==> huge >= 0 && major >= 0 && minor >= 0 && patch >= 0 && identifier != Some([])
    ensures r.Success? ==>
      && r.value.huge == huge && r.value.major == major && r.value.minor == minor
      && r.value.patch == patch && r.value.identifier == identifier
    ensures huge < 0 ==> r == Failure(NegativeField(Huge))
    ensures huge >= 0 && major < 0 ==> r == Failure(NegativeField(Major))
    ensures huge >= 0 && major >= 0 && minor < 0 ==> r == Failure(NegativeField(Minor))
    ensures huge >= 0 && major >= 0 && minor >= 0 && patch < 0 ==> r == Failure(NegativeField(Patch))
    ensures huge >= 0 && major >= 0 && minor >= 0 && patch >= 0 && identifier == Some([]) ==>
      r == Failure(EmptyIdentifier)
  {
    if huge < 0 then Failure(NegativeField(Huge))
    else if major < 0 then Failure(NegativeField(Major))
    else if minor < 0 then Failure(NegativeField(Minor))
    else if patch < 0 then Failure(NegativeField(Patch))
    else if identifier.Some? && |identifier.value| == 0 then Failure(EmptyIdentifier)
    else Success(Version(huge, major, minor, patch, identifier))
  }

  /** `Integer.parseInt` of a captured digit group. */
  function ParseGroup(digits: JString): (r: Result<Int32, Error>)
    requires IsNumeral(digits)
  {
    match ParseInt(digits)
    case Some(n) => Success(n)
    case None => Failure(NumberFormat(digits))
  }

  /** `parse`: null is rejected, then the whole string must match the
      pattern, then the groups are converted in the order huge, major,
      minor, patch, and the result goes through the constructor. */
  function Parse(versionString: Option<JString>): (r: Result<JavaVersion, Error>)
    ensures versionString.None? ==> r == Failure(NullVersionString)
    ensures r.Failure? ==> r.error.NullVersionString? || r.error.InvalidVersionString? || r.error.NumberFormat?
    ensures r.Success? && r.value.identifier.Some? ==> IsIdentifierText(r.value.identifier.value)
  {
    match versionString
    case None => Failure(NullVersionString)
    case Some(s) =>
      match Scan(s)
      case None => Failure(InvalidVersionString(s))
      case Some(g) =>
        ScanSound(s);
        var huge :- ParseGroup(g.huge);
        var major :- ParseGroup(g.major);
        var minor :- if g.minor.Some? then ParseGroup(g.minor.value) else Success(0);
        var patch :- if g.patch.Some? then ParseGroup(g.patch.value) else Success(0);
        New(huge, major, minor, patch, g.identifier)
  }

  /** The number an optional digit group denotes; 0 when it is absent. */
  function GroupValue(d: Option<JString>): nat
    requires d.Some? ==> AllDigits(d.value)
  {
    if d.Some? then Value(d.value) else 0
  }

  /** What a whole-string match means: the version whose components are
      the numbers the groups denote, or a NumberFormatException for the
      first group (in the order huge, major, minor, patch) whose number does
      not fit in an `int`. */
  function Denote(g: Groups): Result<JavaVersion, Error>
    requires WellFormed(g)
  {
    if Value(g.huge) > INT_MAX then Failure(NumberFormat(g.huge))
    else if Value(g.major) > INT_MAX then Failure(NumberFormat(g.major))
    else if g.minor.Some? && Value(g.minor.value) > INT_MAX then Failure(NumberFormat(g.minor.value))
    else if g.patch.Some? && Value(g.patch.value) > INT_MAX then Failure(NumberFormat(g.patch.value))
    else Success(Version(Value(g.huge), Value(g.major), GroupValue(g.minor), GroupValue(g.patch), g.identifier))
  }

  /** `toVersionString`: always `huge.major.minor`, then `_` and the patch
      with a leading zero below 10 when the patch is not 0, then `-` and the
      identifier when there is one. Read back through the pattern, this is
      the match whose groups `RenderedGroups` describes. */
  function ToVersionString(v: JavaVersion): (r: JString)
    ensures r == Spell(RenderedGroups(v))
  {
    var h, mj, mn := ToDecimal(v.huge), ToDecimal(v.major), ToDecimal(v.minor);
    var pp := if v.patch != 0 then [UNDERSCORE] + PatchDigits(v.patch) else [];
    var ip := if v.identifier.Some? then [DASH] + v.identifier.value else [];
    var g := RenderedGroups(v);
    assert g == Groups(h, mj, Some(mn), g.patch, v.identifier);
    assert MinorPart(g) == [DOT] + mn + pp;
    assert IdentifierPart(g) == ip;
    var x := h + [DOT] + mj;
    Associate(x, [DOT] + mn, pp);
    Associate(x, [DOT], mn);
    assert Spell(g) == x + ([DOT] + mn + pp) + ip;
    h + [DOT] + mj + [DOT] + mn + pp + ip
  }

  /** The patch as rendered: exactly one `0` in front of a patch below 10,
      the plain decimal text otherwise. */
  function PatchDigits(patch: nat): (r: JString)
    ensures IsNumeral(r) && Value(r) == patch && |r| >= 2
    ensures patch < 10 ==> |r| == 2 && r[0] == ZERO
    ensures patch >= 10 ==> Canonical(r)
  {
    if patch < 10 then
      ValueLeadingZero(ToDecimal(patch));
      [ZERO] + ToDecimal(patch)
    else ToDecimal(patch)
  }

  /** The contract of `PatchDigits` leaves one text for each patch: the
      rendering admits no other padding. */
  lemma PatchTextUnique(patch: nat, r: JString)
    requires IsNumeral(r) && Value(r) == patch && patch != 0
    requires patch < 10 ==> |r| == 2 && r[0] == ZERO
    requires patch >= 10 ==> Canonical(r)
    ensures r == PatchDigits(patch)
  {
    if patch < 10 {
      ValueSnoc(r, 1);
      ValueSnoc(r, 0);
      assert r[..0] == [] && r[..2] == r;
      assert r == [ZERO, ZERO + patch];
    } else {
      CanonicalUnique(r, patch);
    }
  }

  /** The groups of the pattern the rendering fills in: each number in plain
      decimal without leading zeros, the minor always, the patch exactly
      when it is not 0 and then padded to exactly two digits when below 10,
      the identifier verbatim. */
  function RenderedGroups(v: JavaVersion): (g: Groups)
    ensures Canonical(g.huge) && Value(g.huge) == v.huge
    ensures Canonical(g.major) && Value(g.major) == v.major
    ensures g.minor.Some? && Canonical(g.minor.value) && Value(g.minor.value) == v.minor
    ensures g.patch.Some? <==> v.patch != 0
    ensures g.patch.Some? ==> IsNumeral(g.patch.value) && Value(g.patch.value) == v.patch && |g.patch.value| >= 2
    ensures g.patch.Some? && v.patch < 10 ==> |g.patch.value| == 2 && g.patch.value[0] == ZERO
    ensures g.patch.Some? && v.patch >= 10 ==> Canonical(g.patch.value)
    ensures g.identifier == v.identifier
  {
    var patch := if v.patch == 0 then None else Some(PatchDigits(v.patch));
    Groups(ToDecimal(v.huge), ToDecimal(v.major), Some(ToDecimal(v.minor)), patch, v.identifier)
  }

  /** `equals`: the four components equal and the identifiers both null or
      equal strings; null is never equal. */
  function Equals(a: JavaVersion, o: Option<JavaVersion>): (r: bool)
    ensures r <==> o == Some(a)
  {
    match o
    case None => false
    case Some(b) =>
      && a.huge == b.huge && a.major == b.major && a.minor == b.minor && a.patch == b.patch
      && (if a.identifier.Some? then b.identifier.Some? && a.identifier.value == b.identifier.value
          else b.identifier.None?)
  }

  /** `hashCode`: `result = 31 * result + field` in `int` arithmetic over the
      four components and the identifier's `String.hashCode` (0 for null).
      Java may wrap after every step: the result is the polynomial
      `31^4 huge + 31^3 major + 31^2 minor + 31 patch + identifier hash`
      narrowed once to `int`. */
  function HashCode(v: JavaVersion): (r: Int32)
    ensures r == Wrap(923521 * v.huge + 29791 * v.major + 961 * v.minor + 31 * v.patch + IdentifierHash(v.identifier))
  {
    var r0 := v.huge;
    var r1 := Wrap(31 * r0 + v.major);
    var r2 := Wrap(31 * r1 + v.minor);
    var r3 := Wrap(31 * r2 + v.patch);
    var x1 := 31 * v.huge + v.major;
    var x2 := 31 * x1 + v.minor;
    var x3 := 31 * x2 + v.patch;
    WrapStep(x1, 31, v.minor);
    assert r2 == Wrap(x2);
    WrapStep(x2, 31, v.patch);
    assert r3 == Wrap(x3);
    WrapStep(x3, 31, IdentifierHash(v.identifier));
    Horner(v.huge, v.major, v.minor, v.patch, IdentifierHash(v.identifier));
    Wrap(31 * r3 + IdentifierHash(v.identifier))
  }

  lemma Horner(a: int, b: int, c: int, d: int, e: int)
    ensures 31 * (31 * (31 * (31 * a + b) + c) + d) + e == 923521 * a + 29791 * b + 961 * c + 31 * d + e
  {
  }

  function IdentifierHash(identifier: Option<JString>): Int32
  {
    if identifier.Some? then JavaString.HashCode(identifier.value) else 0
  }

  /** `compareTo`: the numeric components in order decide with -1 or 1; on a
      tie a release (null identifier) is above any identifier, and two
      identifiers compare with `String.compareTo`. */
  function CompareTo(a: JavaVersion, b: JavaVersion): (r: int)
    ensures SameNumbers(a, b) && a.identifier.None? ==> r == (if b.identifier.None? then 0 else 1)
    ensures SameNumbers(a, b) && a.identifier.Some? && b.identifier.None? ==> r == -1
    ensures !SameNumbers(a, b) ==> r == -1 || r == 1
  {
    if a.huge < b.huge then -1
    else if a.huge > b.huge then 1
    else if a.major < b.major then -1
    else if a.major > b.major then 1
    else if a.minor < b.minor then -1
    else if a.minor > b.minor then 1
    else if a.patch < b.patch then -1
    else if a.patch > b.patch then 1
    else if a.identifier.None? then (if b.identifier.Some? then 1 else 0)
    else if b.identifier.None? then -1
    else JavaString.CompareTo(a.identifier.value, b.identifier.value)
  }

  /** `compareTo` with a possibly-null argument: null raises a
      NullPointerException. */
  function CompareToNullable(a: JavaVersion, o: Option<JavaVersion>): (r: Result<int, Error>)
    ensures o.None? <==> r == Failure(NullComparison)
    ensures o.Some? ==> r == Success(CompareTo(a, o.value))
  {
    if o.None? then Failure(NullComparison) else Success(CompareTo(a, o.value))
  }

  predicate SameNumbers(a: Version, b: Version) {
    a.huge == b.huge && a.major == b.major && a.minor == b.minor && a.patch == b.patch
  }

  /** `getSystemJavaVersion`, with the two property reads as inputs: each is
      `None` when the property is unset or reading it raised a
      SecurityException. The `java.version` value wins when it parses; the
      `java.specification.version` value is tried only otherwise; a parse
      failure is swallowed like an absent property. */
  function SystemJavaVersion(javaVersion: Option<JString>, specificationVersion: Option<JString>): (r: Option<JavaVersion>)
    ensures javaVersion.Some? && Parse(javaVersion).Success? ==> r == Some(Parse(javaVersion).value)
    ensures !(javaVersion.Some? && Parse(javaVersion).Success?) ==>
      (r.Some? <==> specificationVersion.Some? && Parse(specificationVersion).Success?)
    ensures !(javaVersion.Some? && Parse(javaVersion).Success?) && r.Some? ==>
      r.value == Parse(specificationVersion).value
  {
    var first := if javaVersion.Some? then ParsedOrNull(javaVersion.value) else None;
    if first.Some? then first
    else if specificationVersion.Some? then ParsedOrNull(specificationVersion.value)
    else None
  }

  /** `parse` inside a catch of IllegalArgumentException. */
  function ParsedOrNull(s: JString): Option<JavaVersion>
  {
    match Parse(Some(s))
    case Success(v) => Some(v)
    case Failure(_) => None
  }

  /** The `JVM` constant: the system version, or `MIN_VALUE` when neither
      property yields one. */
  function Jvm(javaVersion: Option<JString>, specificationVersion: Option<JString>): (r: JavaVersion)
    ensures Parse(javaVersion).Success? ==> r == Parse(javaVersion).value
    ensures Parse(javaVersion).Failure? && Parse(specificationVersion).Success? ==> r == Parse(specificationVersion).value
    ensures Parse(javaVersion).Failure? && Parse(specificationVersion).Failure? ==> r == MIN_VALUE
  {
    match SystemJavaVersion(javaVersion, specificationVersion)
    case Some(v) => v
    case None => MIN_VALUE
  }
}
