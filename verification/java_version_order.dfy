/** The ordering `compareTo` defines, its agreement with `equals`, the
    consistency of `hashCode` with `equals`, and where `MIN_VALUE` sits. */
module JavaVersionOrder {
  import opened Wrappers
  import opened JavaInt
  import JavaString
  import opened JavaVersions

  /** The intended order, stated without `compareTo`: the numeric components
      lexicographically, then a version with an identifier before the
      release with the same numbers, and two identifiers in lexicographic
      order of their code units. */
  ghost predicate Before(a: JavaVersion, b: JavaVersion) {
    || a.huge < b.huge
    || (a.huge == b.huge && a.major < b.major)
    || (a.huge == b.huge && a.major == b.major && a.minor < b.minor)
    || (a.huge == b.huge && a.major == b.major && a.minor == b.minor && a.patch < b.patch)
    || (SameNumbers(a, b) && IdentifierBefore(a.identifier, b.identifier))
  }

  ghost predicate IdentifierBefore(x: Option<JString>, y: Option<JString>) {
    match (x, y)
    case (Some(_), None) => true
    case (Some(p), Some(q)) => JavaString.LexLess(p, q)
    case _ => false
  }

  /** `compareTo` is negative exactly when `a` comes before `b`. */
  lemma CompareToNegativeIff(a: JavaVersion, b: JavaVersion)
    ensures CompareTo(a, b) < 0 <==> Before(a, b)
  {
    if SameNumbers(a, b) && a.identifier.Some? && b.identifier.Some? {
      JavaString.CompareToNegativeIff(a.identifier.value, b.identifier.value);
    }
  }

  /** `compareTo` is zero exactly on equal versions, which is exactly when
      `equals` holds. */
  lemma CompareToZeroIff(a: JavaVersion, b: JavaVersion)
    ensures CompareTo(a, b) == 0 <==> a == b
    ensures CompareTo(a, b) == 0 <==> Equals(a, Some(b))
  {
    if SameNumbers(a, b) && a.identifier.Some? && b.identifier.Some? {
      JavaString.CompareToZeroIff(a.identifier.value, b.identifier.value);
    }
  }

  /** Swapping the operands negates the result. */
  lemma CompareToAntisymmetric(a: JavaVersion, b: JavaVersion)
    ensures CompareTo(a, b) == -CompareTo(b, a)
  {
    if SameNumbers(a, b) && a.identifier.Some? && b.identifier.Some? {
      JavaString.CompareToAntisymmetric(a.identifier.value, b.identifier.value);
    }
  }

  /** Strictly smaller is transitive. */
  lemma CompareToTransitive(a: JavaVersion, b: JavaVersion, c: JavaVersion)
    requires CompareTo(a, b) < 0 && CompareTo(b, c) < 0
    ensures CompareTo(a, c) < 0
  {
    if SameNumbers(a, b) && SameNumbers(b, c) && a.identifier.Some? && b.identifier.Some? && c.identifier.Some? {
      JavaString.CompareToTransitive(a.identifier.value, b.identifier.value, c.identifier.value);
    }
  }

  /** Smaller-or-equal is transitive. */
  lemma CompareToTransitiveNonStrict(a: JavaVersion, b: JavaVersion, c: JavaVersion)
    requires CompareTo(a, b) <= 0 && CompareTo(b, c) <= 0
    ensures CompareTo(a, c) <= 0
  {
    CompareToZeroIff(a, b);
    CompareToZeroIff(b, c);
    if CompareTo(a, b) < 0 && CompareTo(b, c) < 0 {
      CompareToTransitive(a, b, c);
    }
  }

  /** `Before` is a strict total order on versions, so `compareTo` is a
      total order. */
  lemma BeforeIsStrictTotalOrder()
    ensures forall a: JavaVersion :: !Before(a, a)
    ensures forall a: JavaVersion, b: JavaVersion, c: JavaVersion :: Before(a, b) && Before(b, c) ==> Before(a, c)
    ensures forall a: JavaVersion, b: JavaVersion :: a != b ==> Before(a, b) || Before(b, a)
    ensures forall a: JavaVersion, b: JavaVersion :: Before(a, b) ==> !Before(b, a)
  {
    forall a: JavaVersion
      ensures !Before(a, a)
    {
      CompareToZeroIff(a, a);
      CompareToNegativeIff(a, a);
    }
    forall a: JavaVersion, b: JavaVersion, c: JavaVersion | Before(a, b) && Before(b, c)
      ensures Before(a, c)
    {
      CompareToNegativeIff(a, b);
      CompareToNegativeIff(b, c);
      CompareToTransitive(a, b, c);
      CompareToNegativeIff(a, c);
    }
    forall a: JavaVersion, b: JavaVersion | a != b
      ensures Before(a, b) || Before(b, a)
    {
      CompareToZeroIff(a, b);
      CompareToAntisymmetric(a, b);
      CompareToNegativeIff(a, b);
      CompareToNegativeIff(b, a);
    }
    forall a: JavaVersion, b: JavaVersion | Before(a, b)
      ensures !Before(b, a)
    {
      CompareToAntisymmetric(a, b);
      CompareToNegativeIff(a, b);
      CompareToNegativeIff(b, a);
    }
  }

  /** Equal versions have equal hash codes. */
  lemma HashCodeConsistent(a: JavaVersion, b: JavaVersion)
    requires Equals(a, Some(b))
    ensures HashCode(a) == HashCode(b)
  {
  }

  /** `MIN_VALUE` is at or below every version except those with numbers
      0.0.0_0 and an identifier, which `compareTo` puts below it. */
  lemma MinValueBelowIff(v: JavaVersion)
    ensures CompareTo(MIN_VALUE, v) <= 0 <==> !(v.huge == 0 && v.major == 0 && v.minor == 0 && v.patch == 0 && v.identifier.Some?)
  {
  }

  /** In particular `MIN_VALUE` is the least release. */
  lemma MinValueLeastRelease(v: JavaVersion)
    requires v.identifier.None?
    ensures CompareTo(MIN_VALUE, v) <= 0
  {
    MinValueBelowIff(v);
  }

  /** The documented "smallest possible version" is not the least:
      0.0.0-ea comes before it. */
  lemma MinValueNotLeast()
    ensures CompareTo(Version(0, 0, 0, 0, Some(JavaString.Bmp("ea"))), MIN_VALUE) < 0
  {
  }

  /** A release outranks its own early-access builds, a later patch
      outranks an earlier one, and identifiers compare as strings, so `ea`
      comes before `rc`. */
  lemma CompareToExamples()
    ensures CompareTo(Version(1, 8, 0, 0, None), Version(1, 8, 0, 0, Some(JavaString.Bmp("ea")))) > 0
    ensures CompareTo(Version(1, 8, 0, 25, None), Version(1, 8, 0, 24, None)) > 0
    ensures CompareTo(Version(1, 8, 0, 0, Some(JavaString.Bmp("ea"))), Version(1, 8, 0, 0, Some(JavaString.Bmp("rc")))) < 0
  {
  }

  /** Identifiers compare as text, not as numbers: `rc10` comes before
      `rc2`. */
  lemma IdentifiersCompareLexically()
    ensures CompareTo(Version(1, 8, 0, 0, Some(JavaString.Bmp("rc10"))), Version(1, 8, 0, 0, Some(JavaString.Bmp("rc2")))) < 0
  {
  }
}
