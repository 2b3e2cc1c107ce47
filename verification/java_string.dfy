/** The parts of `java.lang.String` the version type relies on: a string is
    a sequence of UTF-16 code units, compared and hashed unit by unit. */
module JavaString {
  import opened JavaInt

  /** One UTF-16 code unit, Java's `char`. */
  type CodeUnit = c: int | 0 <= c < 0x1_0000

  /** A non-null Java `String`. */
  type JString = seq<CodeUnit>

  /** The code units of a text whose characters all lie in the Basic
      Multilingual Plane, where UTF-16 spends one unit per character. Used
      to write string literals. */
  function Bmp(s: string): JString
    requires forall i :: 0 <= i < |s| ==> s[i] as int < 0x1_0000
  {
    seq(|s|, i requires 0 <= i < |s| => s[i] as int)
  }

  /** `String.compareTo`: the difference of the first pair of code units
      that differ, or else the difference of the lengths. */
  function CompareTo(a: JString, b: JString): int
  {
    if |a| == 0 || |b| == 0 then |a| - |b|
    else if a[0] != b[0] then a[0] - b[0]
    else CompareTo(a[1..], b[1..])
  }

  /** Lexicographic order on code units, stated without recursion: `a` is a
      proper prefix of `b`, or the first unit where they differ is smaller
      in `a`. */
  ghost predicate LexLess(a: JString, b: JString) {
    exists k :: 0 <= k <= |a| && k <= |b| && a[..k] == b[..k] &&
      ((k == |a| && k < |b|) || (k < |a| && k < |b| && a[k] < b[k]))
  }

  /** A negative `compareTo` means exactly lexicographically smaller. */
  lemma {:induction false} CompareToNegativeIff(a: JString, b: JString)
    ensures CompareTo(a, b) < 0 <==> LexLess(a, b)
    decreases |a|
  {
    if |a| == 0 || |b| == 0 {
      if |a| == 0 && |b| > 0 {
        assert a[..0] == b[..0];
      }
    } else if a[0] != b[0] {
      if a[0] < b[0] {
        assert a[..0] == b[..0];
      }
      if LexLess(a, b) {
        var k :| 0 <= k <= |a| && k <= |b| && a[..k] == b[..k] &&
          ((k == |a| && k < |b|) || (k < |a| && k < |b| && a[k] < b[k]));
      }
    } else {
      CompareToNegativeIff(a[1..], b[1..]);
      LexLessTail(a, b);
    }
  }

  /** A common first unit does not change the lexicographic order. */
  lemma LexLessTail(a: JString, b: JString)
    requires |a| > 0 && |b| > 0 && a[0] == b[0]
    ensures LexLess(a, b) <==> LexLess(a[1..], b[1..])
  {
    var a', b' := a[1..], b[1..];
    if LexLess(a, b) {
      var k :| 0 <= k <= |a| && k <= |b| && a[..k] == b[..k] &&
        ((k == |a| && k < |b|) || (k < |a| && k < |b| && a[k] < b[k]));
      assert k > 0;
      assert a'[..k-1] == a[1..k] == b[1..k] == b'[..k-1];
      assert (k - 1 == |a'| && k - 1 < |b'|) || (k - 1 < |a'| && k - 1 < |b'| && a'[k-1] < b'[k-1]);
    }
    if LexLess(a', b') {
      var k :| 0 <= k <= |a'| && k <= |b'| && a'[..k] == b'[..k] &&
        ((k == |a'| && k < |b'|) || (k < |a'| && k < |b'| && a'[k] < b'[k]));
      assert a[..k+1] == [a[0]] + a'[..k] == [b[0]] + b'[..k] == b[..k+1];
      assert (k + 1 == |a| && k + 1 < |b|) || (k + 1 < |a| && k + 1 < |b| && a[k+1] < b[k+1]);
    }
  }

  /** `compareTo` is zero exactly on equal strings. */
  lemma {:induction false} CompareToZeroIff(a: JString, b: JString)
    ensures CompareTo(a, b) == 0 <==> a == b
    decreases |a|
  {
    if |a| == 0 || |b| == 0 {
    } else if a[0] != b[0] {
    } else {
      CompareToZeroIff(a[1..], b[1..]);
      assert a == [a[0]] + a[1..] && b == [b[0]] + b[1..];
    }
  }

  /** Swapping the operands negates the result, exactly. */
  lemma {:induction false} CompareToAntisymmetric(a: JString, b: JString)
    ensures CompareTo(a, b) == -CompareTo(b, a)
    decreases |a|
  {
    if |a| == 0 || |b| == 0 {
    } else if a[0] != b[0] {
    } else {
      CompareToAntisymmetric(a[1..], b[1..]);
    }
  }

  /** Strictly smaller is transitive. */
  lemma {:induction false} CompareToTransitive(a: JString, b: JString, c: JString)
    requires CompareTo(a, b) < 0 && CompareTo(b, c) < 0
    ensures CompareTo(a, c) < 0
    decreases |a|
  {
    if |a| == 0 || |b| == 0 || |c| == 0 {
    } else if a[0] != b[0] || b[0] != c[0] {
    } else {
      CompareToTransitive(a[1..], b[1..], c[1..]);
    }
  }

  /** `String.hashCode`: `h = 31 * h + c` over the code units in order, in
      `int` arithmetic. */
  function HashCode(s: JString): Int32
  {
    if |s| == 0 then 0 else Wrap(31 * HashCode(s[..|s| - 1]) + s[|s| - 1])
  }

  function Pow31(n: nat): nat
  {
    if n == 0 then 1 else 31 * Pow31(n - 1)
  }

  /** The documented closed form `s[0]*31^(n-1) + s[1]*31^(n-2) + ... + s[n-1]`,
      computed exactly. */
  ghost function Polynomial(s: JString): int
  {
    if |s| == 0 then 0 else s[0] * Pow31(|s| - 1) + Polynomial(s[1..])
  }

  lemma {:induction false} PolynomialSnoc(p: JString, c: CodeUnit)
    ensures Polynomial(p + [c]) == 31 * Polynomial(p) + c
    decreases |p|
  {
    if |p| == 0 {
      assert Polynomial([c]) == c * Pow31(0) + Polynomial([]);
    } else {
      var s := p + [c];
      assert s[0] == p[0] && s[1..] == p[1..] + [c];
      PolynomialSnoc(p[1..], c);
      assert Pow31(|s| - 1) == 31 * Pow31(|p| - 1);
      assert p[0] * (31 * Pow31(|p| - 1)) == 31 * (p[0] * Pow31(|p| - 1));
    }
  }

  /** The step-by-step hash equals the closed form narrowed once to `int`. */
  lemma {:induction false} HashCodeIsPolynomial(s: JString)
    ensures HashCode(s) == Wrap(Polynomial(s))
    decreases |s|
  {
    if |s| > 0 {
      var p, c := s[..|s| - 1], s[|s| - 1];
      assert s == p + [c];
      HashCodeIsPolynomial(p);
      WrapStep(Polynomial(p), 31, c);
      PolynomialSnoc(p, c);
    }
  }
}
