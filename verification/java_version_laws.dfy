/** What `JavaVersion` promises: the grammar `parse` accepts and what a match
    means, the round trip through `toVersionString`, the ordering laws,
    equality and hash consistency, and the runtime-version fallback. */
module JavaVersionLaws {
  import opened Wrappers
  import opened JavaInt
  import JavaString
  import opened Decimal
  import opened VersionPattern
  import opened JavaVersions

  // ---------------------------------------------------------------- parse

  /** A string matching the pattern parses to what its groups denote. */
  lemma ParseMatch(s: JString, g: Groups)
    requires Matches(s, g)
    ensures Parse(Some(s)) == Denote(g)
  {
    ScanComplete(s, g);
  }

  /** `parse` reports an invalid version string exactly when the string does
      not match the pattern in its entirety. */
  lemma ParseInvalidIff(s: JString)
    ensures Parse(Some(s)) == Failure(InvalidVersionString(s)) <==> forall g :: !Matches(s, g)
  {
    if Scan(s).Some? {
      ScanSound(s);
      ParseMatch(s, Scan(s).value);
    } else {
      forall g | Matches(s, g)
        ensures false
      {
        ScanComplete(s, g);
      }
    }
  }

  /** The versions `parse` returns are exactly the denotations of matches:
      success means some match whose numbers all fit in an `int`. */
  lemma ParseSuccess(s: JString)
    requires Parse(Some(s)).Success?
    ensures Scan(s).Some? && Matches(s, Scan(s).value)
    ensures Denote(Scan(s).value) == Parse(Some(s))
  {
    ScanSound(s);
    ParseMatch(s, Scan(s).value);
  }

  /** No string containing a line terminator parses: the digits and
      separators are not line terminators, and the identifier's `.+` does
      not match one. */
  lemma LineTerminatorNeverParses(s: JString, i: nat)
    requires i < |s| && IsLineTerminator(s[i])
    ensures Parse(Some(s)) == Failure(InvalidVersionString(s))
  {
    forall g | Matches(s, g)
      ensures false
    {
      SpellHasNoLineTerminator(g);
    }
    ParseInvalidIff(s);
  }

  predicate NoLineTerminator(s: JString) {
    forall i :: 0 <= i < |s| ==> !IsLineTerminator(s[i])
  }

  lemma NoLineTerminatorAppend(a: JString, b: JString)
    requires NoLineTerminator(a) && NoLineTerminator(b)
    ensures NoLineTerminator(a + b)
  {
    forall i | 0 <= i < |a + b|
      ensures !IsLineTerminator((a + b)[i])
    {
      if i >= |a| {
        assert (a + b)[i] == b[i - |a|];
      }
    }
  }

  /** A separator followed by digits, as in `.8` or `_25`. */
  lemma SeparatedDigits(c: JavaString.CodeUnit, d: JString)
    requires !IsLineTerminator(c) && AllDigits(d)
    ensures NoLineTerminator([c] + d)
  {
    NoLineTerminatorAppend([c], d);
  }

  /** Everything the pattern matches is free of line terminators. */
  lemma SpellHasNoLineTerminator(g: Groups)
    requires WellFormed(g)
    ensures NoLineTerminator(Spell(g))
  {
    SeparatedDigits(DOT, g.major);
    NoLineTerminatorAppend(g.huge, [DOT] + g.major);
    Associate(g.huge, [DOT], g.major);
    if g.minor.Some? {
      SeparatedDigits(DOT, g.minor.value);
      if g.patch.Some? {
        SeparatedDigits(UNDERSCORE, g.patch.value);
      }
      NoLineTerminatorAppend([DOT] + g.minor.value, PatchPart(g));
    }
    NoLineTerminatorAppend(g.huge + [DOT] + g.major, MinorPart(g));
    if g.identifier.Some? {
      NoLineTerminatorAppend([DASH], g.identifier.value);
    }
    NoLineTerminatorAppend(g.huge + [DOT] + g.major + MinorPart(g), IdentifierPart(g));
  }

  // ---------------------------------------------------------- round trip

  /** Rendering and parsing back yields the same version, for every version
      whose identifier the pattern's `.+` can match. */
  lemma RoundTrip(v: JavaVersion)
    requires v.identifier.Some? ==> IsIdentifierText(v.identifier.value)
    ensures Parse(Some(ToVersionString(v))) == Success(v)
  {
    var g := RenderedGroups(v);
    assert WellFormed(g);
    ParseMatch(ToVersionString(v), g);
  }

  /** An identifier holding a line terminator is accepted by the constructor
      but its rendering does not parse back. */
  lemma RoundTripFailsOnLineTerminator(v: JavaVersion, i: nat)
    requires v.identifier.Some? && i < |v.identifier.value| && IsLineTerminator(v.identifier.value[i])
    ensures Parse(Some(ToVersionString(v))).Failure?
  {
    var s, g := ToVersionString(v), RenderedGroups(v);
    var a := g.huge + [DOT] + g.major + MinorPart(g);
    assert s == a + ([DASH] + v.identifier.value);
    assert s[|a| + 1 + i] == v.identifier.value[i];
    LineTerminatorNeverParses(s, |a| + 1 + i);
  }

  /** Normalising a version string is idempotent: the rendering of whatever
      `parse` returns parses to the same version. */
  lemma RenderParsedIsStable(s: JString)
    requires Parse(Some(s)).Success?
    ensures Parse(Some(ToVersionString(Parse(Some(s)).value))) == Parse(Some(s))
  {
    RoundTrip(Parse(Some(s)).value);
  }

  // -------------------------------------------------------------- examples

  /** `1.8` is a release with minor and patch 0. */
  lemma ParseSpecificationVersion(s: JString)
    requires s == JavaString.Bmp("1.8")
    ensures Parse(Some(s)) == Success(Version(1, 8, 0, 0, None))
  {
    var g := SpecificationVersionGroups(s);
    ParseMatch(s, g);
  }

  lemma SpecificationVersionGroups(s: JString) returns (g: Groups)
    requires s == JavaString.Bmp("1.8")
    ensures Matches(s, g) && Denote(g) == Success(Version(1, 8, 0, 0, None))
  {
    g := Groups(JavaString.Bmp("1"), JavaString.Bmp("8"), None, None, None);
    assert Spell(g) == s;
    assert Value(g.huge) == 1 && Value(g.major) == 8;
  }

  /** All five groups present. */
  lemma ParseFullVersion(s: JString)
    requires s == JavaString.Bmp("1.8.0_25-ea")
    ensures Parse(Some(s)) == Success(Version(1, 8, 0, 25, Some(JavaString.Bmp("ea"))))
  {
    var g := FullVersionGroups(s);
    ParseMatch(s, g);
  }

  lemma FullVersionGroups(s: JString) returns (g: Groups)
    requires s == JavaString.Bmp("1.8.0_25-ea")
    ensures Matches(s, g) && Denote(g) == Success(Version(1, 8, 0, 25, Some(JavaString.Bmp("ea"))))
  {
    assert s == [49, 46, 56, 46, 48, 95, 50, 53, 45, 101, 97];
    assert JavaString.Bmp("ea") == [101, 97];
    g := Groups([49], [56], Some([48]), Some([50, 53]), Some([101, 97]));
    assert Spell(g) == s;
    assert Value(g.patch.value) == 25 by {
      ValueSnoc(g.patch.value, 1);
    }
  }

  /** A one-digit patch is read as written. */
  lemma ParseShortPatch(s: JString)
    requires s == JavaString.Bmp("1.8.0_5")
    ensures Parse(Some(s)) == Success(Version(1, 8, 0, 5, None))
  {
    var g := ShortPatchGroups(s);
    ParseMatch(s, g);
  }

  lemma ShortPatchGroups(s: JString) returns (g: Groups)
    requires s == JavaString.Bmp("1.8.0_5")
    ensures Matches(s, g) && Denote(g) == Success(Version(1, 8, 0, 5, None))
  {
    g := Groups(JavaString.Bmp("1"), JavaString.Bmp("8"), Some(JavaString.Bmp("0")), Some(JavaString.Bmp("5")), None);
    assert Spell(g) == s;
    assert Value(g.huge) == 1 && Value(g.major) == 8;
    assert Value(g.minor.value) == 0 && Value(g.patch.value) == 5;
  }

  /** An identifier without a patch. */
  lemma ParseEarlyAccess(s: JString)
    requires s == JavaString.Bmp("1.8.0-ea")
    ensures Parse(Some(s)) == Success(Version(1, 8, 0, 0, Some(JavaString.Bmp("ea"))))
  {
    var g := EarlyAccessGroups(s);
    ParseMatch(s, g);
  }

  lemma EarlyAccessGroups(s: JString) returns (g: Groups)
    requires s == JavaString.Bmp("1.8.0-ea")
    ensures Matches(s, g) && Denote(g) == Success(Version(1, 8, 0, 0, Some(JavaString.Bmp("ea"))))
  {
    g := Groups(JavaString.Bmp("1"), JavaString.Bmp("8"), Some(JavaString.Bmp("0")), None, Some(JavaString.Bmp("ea")));
    assert Spell(g) == s;
    assert Value(g.huge) == 1 && Value(g.major) == 8 && Value(g.minor.value) == 0;
  }

  /** `toVersionString` writes the minor even when it is 0 and leaves out a
      zero patch. */
  lemma RenderReleaseExample()
    ensures ToVersionString(Version(1, 8, 0, 0, None)) == JavaString.Bmp("1.8.0")
  {
  }

  /** A patch below 10 is padded to two digits. */
  lemma RenderPaddedPatchExample()
    ensures ToVersionString(Version(1, 8, 0, 5, None)) == JavaString.Bmp("1.8.0_05")
  {
  }

  /** The identifier follows a `-`, after the patch. */
  lemma RenderIdentifierExample()
    ensures ToVersionString(Version(1, 8, 0, 25, Some(JavaString.Bmp("ea")))) == JavaString.Bmp("1.8.0_25-ea")
  {
  }

  /** An explicit zero patch is accepted but not kept: `1.8.0_00` parses to
      1.8.0, which renders without the patch. */
  lemma ParseForgetsZeroPatch(s: JString)
    requires s == JavaString.Bmp("1.8.0_00")
    ensures Parse(Some(s)) == Success(Version(1, 8, 0, 0, None))
    ensures ToVersionString(Parse(Some(s)).value) != s
  {
    var g := ZeroPatchGroups(s);
    ParseMatch(s, g);
    RenderReleaseExample();
    assert |s| == 8;
  }

  lemma ZeroPatchGroups(s: JString) returns (g: Groups)
    requires s == JavaString.Bmp("1.8.0_00")
    ensures Matches(s, g) && Denote(g) == Success(Version(1, 8, 0, 0, None))
  {
    g := Groups(JavaString.Bmp("1"), JavaString.Bmp("8"), Some(JavaString.Bmp("0")), Some(JavaString.Bmp("00")), None);
    assert Spell(g) == s;
    assert Value(g.huge) == 1 && Value(g.major) == 8;
    assert Value(g.minor.value) == 0 && Value(g.patch.value) == 0;
  }

  /** A leading zero is accepted but not kept: `01.8` parses to 1.8.0. */
  lemma ParseForgetsLeadingZero(s: JString)
    requires s == JavaString.Bmp("01.8")
    ensures Parse(Some(s)) == Success(Version(1, 8, 0, 0, None))
    ensures ToVersionString(Parse(Some(s)).value) != s
  {
    var g := LeadingZeroGroups(s);
    ParseMatch(s, g);
    RenderReleaseExample();
    assert |s| == 4;
  }

  lemma LeadingZeroGroups(s: JString) returns (g: Groups)
    requires s == JavaString.Bmp("01.8")
    ensures Matches(s, g) && Denote(g) == Success(Version(1, 8, 0, 0, None))
  {
    g := Groups(JavaString.Bmp("01"), JavaString.Bmp("8"), None, None, None);
    assert Spell(g) == s;
    assert Value(g.huge) == 1 && Value(g.major) == 8;
  }

  /** Trailing text after the patch, as in `1.8.0_25.1`, is rejected. */
  lemma ParseRejectsTrailingText(s: JString)
    requires s == JavaString.Bmp("1.8.0_25.1")
    ensures Parse(Some(s)) == Failure(InvalidVersionString(s))
  {
    assert Scan(s).None? by {
      assert s == [49, 46, 56, 46, 48, 95, 50, 53, 46, 49];
      assert SpanDigits(s, 0) == 1;
      assert SpanDigits(s, 2) == 3;
      assert SpanDigits(s, 4) == 5;
      assert SpanDigits(s, 7) == 8;
      assert SpanDigits(s, 6) == 8;
      assert ScanIdentifier(s, 8) == None;
    }
  }

  /** A dangling `-` is rejected: `.+` needs at least one character. */
  lemma ParseRejectsDanglingDash(s: JString)
    requires s == JavaString.Bmp("1.8-")
    ensures Parse(Some(s)) == Failure(InvalidVersionString(s))
  {
    assert Scan(s).None? by {
      assert s == [49, 46, 56, 45];
      assert SpanDigits(s, 0) == 1;
      assert SpanDigits(s, 2) == 3;
      assert s[4..] == [];
    }
  }

  /** A dangling `_` is rejected: the patch group needs digits. */
  lemma ParseRejectsDanglingUnderscore(s: JString)
    requires s == JavaString.Bmp("1.8.0_")
    ensures Parse(Some(s)) == Failure(InvalidVersionString(s))
  {
    assert Scan(s).None? by {
      assert s == [49, 46, 56, 46, 48, 95];
      assert SpanDigits(s, 0) == 1;
      assert SpanDigits(s, 2) == 3;
      assert SpanDigits(s, 4) == 5;
      assert SpanDigits(s, 6) == 6;
    }
  }

  /** A patch needs a minor before it. */
  lemma ParseRejectsPatchWithoutMinor(s: JString)
    requires s == JavaString.Bmp("1.8_25")
    ensures Parse(Some(s)) == Failure(InvalidVersionString(s))
  {
    assert Scan(s).None? by {
      assert s == [49, 46, 56, 95, 50, 53];
      assert SpanDigits(s, 0) == 1;
      assert SpanDigits(s, 2) == 3;
    }
  }

  /** Text that is no version, a missing huge and a missing major are
      rejected. */
  lemma ParseRejectsMissingNumbers(s: JString)
    requires s == JavaString.Bmp("garbage") || s == JavaString.Bmp(".8") || s == JavaString.Bmp("1")
    ensures Parse(Some(s)) == Failure(InvalidVersionString(s))
  {
    assert Scan(s).None? by {
      if s == JavaString.Bmp("1") {
        assert s == [49];
        assert SpanDigits(s, 0) == 1;
      } else {
        assert !IsDigit(s[0]);
      }
    }
  }

  /** A group past Integer.MAX_VALUE raises a NumberFormatException: the
      code units of `1.2147483648` match the pattern but do not parse. */
  lemma ParseRejectsOverflow(s: JString, d: JString)
    requires d == [50, 49, 52, 55, 52, 56, 51, 54, 52, 56]
    requires s == [49, 46] + d
    ensures Parse(Some(s)) == Failure(NumberFormat(d))
  {
    IntMaxPlusOne(d);
    var g := Groups([49], d, None, None, None);
    assert Matches(s, g);
    ParseMatch(s, g);
  }

  lemma IntMaxPlusOne(d: JString)
    requires d == [50, 49, 52, 55, 52, 56, 51, 54, 52, 56]
    ensures IsNumeral(d) && Value(d) == INT_MAX + 1
  {
    IntMaxPlusOnePrefix(d);
    ValueSnoc(d, 5);
    assert Value(d[..6]) == 214748;
    ValueSnoc(d, 6);
    assert Value(d[..7]) == 2147483;
    ValueSnoc(d, 7);
    assert Value(d[..8]) == 21474836;
    ValueSnoc(d, 8);
    assert Value(d[..9]) == 214748364;
    ValueSnoc(d, 9);
    assert d[..10] == d;
  }

  lemma IntMaxPlusOnePrefix(d: JString)
    requires d == [50, 49, 52, 55, 52, 56, 51, 54, 52, 56]
    ensures AllDigits(d) && Value(d[..5]) == 21474
  {
    assert Value(d[..0]) == 0;
    ValueSnoc(d, 0);
    assert Value(d[..1]) == 2;
    ValueSnoc(d, 1);
    assert Value(d[..2]) == 21;
    ValueSnoc(d, 2);
    assert Value(d[..3]) == 214;
    ValueSnoc(d, 3);
    assert Value(d[..4]) == 2147;
    ValueSnoc(d, 4);
  }

  // ----------------------------------------------------- runtime version

  /** A JVM reporting its own version string is identified by it, whatever
      the specification version says. */
  lemma JvmOfRenderedVersion(v: JavaVersion, specificationVersion: Option<JString>)
    requires v.identifier.Some? ==> IsIdentifierText(v.identifier.value)
    ensures Jvm(Some(ToVersionString(v)), specificationVersion) == v
  {
    RoundTrip(v);
  }

  /** `java.version` of `1.8.0_25` wins over `java.specification.version`. */
  lemma JvmPrefersJavaVersion(javaVersion: JString, specificationVersion: JString)
    requires javaVersion == JavaString.Bmp("1.8.0_25")
    requires specificationVersion == JavaString.Bmp("1.8")
    ensures Jvm(Some(javaVersion), Some(specificationVersion)) == Version(1, 8, 0, 25, None)
  {
    var g := JavaVersionGroups(javaVersion);
    ParseMatch(javaVersion, g);
  }

  lemma JavaVersionGroups(s: JString) returns (g: Groups)
    requires s == JavaString.Bmp("1.8.0_25")
    ensures Matches(s, g) && Denote(g) == Success(Version(1, 8, 0, 25, None))
  {
    g := Groups(JavaString.Bmp("1"), JavaString.Bmp("8"), Some(JavaString.Bmp("0")), Some(JavaString.Bmp("25")), None);
    assert Spell(g) == s;
    assert Value(g.huge) == 1 && Value(g.major) == 8;
    assert Value(g.minor.value) == 0 && Value(g.patch.value) == 25;
  }

  /** A `java.version` the pattern rejects, such as `1.8.0_25.1`, falls back
      to the specification version. */
  lemma JvmFallsBackToSpecificationVersion(javaVersion: JString, specificationVersion: JString)
    requires javaVersion == JavaString.Bmp("1.8.0_25.1")
    requires specificationVersion == JavaString.Bmp("1.8")
    ensures Jvm(Some(javaVersion), Some(specificationVersion)) == Version(1, 8, 0, 0, None)
  {
    ParseRejectsTrailingText(javaVersion);
    ParseSpecificationVersion(specificationVersion);
  }

  /** Without either property the runtime version is `MIN_VALUE`. */
  lemma JvmWithoutProperties()
    ensures SystemJavaVersion(None, None) == None
    ensures Jvm(None, None) == MIN_VALUE
  {
  }
}
