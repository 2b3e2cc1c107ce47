# JavaVersion in Dafny

A model of `de.huxhorn.sulky.version.JavaVersion`: a Java version number of
the form `huge.major[.minor[_patch]][-identifier]`, such as `1.8.0_25` or
`1.8.0-ea`. The model has these parts:

- the validating constructor;
- `parse`, which matches the version pattern and converts the groups with `Integer.parseInt`;
- the canonical rendering `toVersionString`;
- `equals`, `hashCode` and `compareTo`;
- `MIN_VALUE`;
- the runtime version `JVM`, resolved from the `java.version` and
  `java.specification.version` properties.

Modules, in dependency order:

| file | module | contents |
|---|---|---|
| `wrappers.dfy` | `Wrappers` | `Option` and `Result` (a thrown exception is a `Failure`) |
| `java_int.dfy` | `JavaInt` | 32-bit `int` range and two's-complement wrap-around `Wrap` |
| `java_string.dfy` | `JavaString` | a `String` as UTF-16 code units; `String.compareTo` and `String.hashCode`, with their laws |
| `decimal.dfy` | `Decimal` | ASCII digit runs, their value, `Integer.parseInt` on them (with overflow), decimal rendering of an `int` |
| `version_pattern.dfy` | `VersionPattern` | the version pattern as a grammar (`Matches`) and as a deterministic scanner (`Scan`), proved equivalent |
| `java_version.dfy` | `JavaVersions` | the class: `Version`, `New`, `Parse`, `ToVersionString`, `Equals`, `HashCode`, `CompareTo`, `SystemJavaVersion`, `Jvm` |
| `java_version_order.dfy` | `JavaVersionOrder` | `compareTo` against an independent order `Before`; equality and hash consistency; where `MIN_VALUE` sits |
| `java_version_laws.dfy` | `JavaVersionLaws` | what `parse` accepts and means, the round trip with `toVersionString`, concrete examples, the fallback |

Modelling choices:

- A Java `String` is a `seq` of UTF-16 code units. Java's `null` is `None`.
- An `int` is an `int` in the 32-bit range. `hashCode` wraps exactly as Java does.
- A `JavaVersion` instance is a `Version` satisfying `Valid`: non-negative
  components and a null or non-empty identifier. That is the invariant the
  constructor enforces.
- `parse` is stated through the capture groups of the whole-input match. The
  scanner `Scan` is proved to return exactly the groups of a match, and
  nothing when there is none (`VersionPattern.ScanIff`). `Denote` says what a
  match means: its numbers, or a NumberFormatException for the first group
  that overflows `int`.
- `compareTo` returns Java's values: -1 or 1 when a number differs, and the
  `String.compareTo` result (a code-unit or length difference) for two
  identifiers. Its laws are stated about the sign.

Behaviour of the code worth knowing, which the model follows:

- The identifier group `(.+)` uses `.` without DOTALL, so it does not match a
  line terminator (`\n`, `\r`, U+0085, U+2028, U+2029). A version whose
  identifier contains one can be constructed, but its rendering does not
  parse back (`JavaVersionLaws.RoundTripFailsOnLineTerminator`). The round
  trip therefore holds only for identifiers without line terminators.
- `MIN_VALUE` is documented as the smallest possible version (line 66), but
  `compareTo` places 0.0.0 with any identifier below it. It is the
  least version without an identifier, and nothing more
  (`JavaVersionOrder.MinValueBelowIff`).
- `\d` matches ASCII digits only, so `Integer.parseInt` never sees a sign
  or a non-ASCII digit. It can still overflow, which `parse` lets escape as
  a NumberFormatException.

## Model

| member | source | states |
|---|---|---|
| `JavaVersions.New` | sulky-version/src/main/java/de/huxhorn/sulky/version/JavaVersion.java:193-221 | succeeds exactly when all four numbers are non-negative and the identifier is null or non-empty, keeping every field; otherwise the first failing check in the order huge, major, minor, patch, identifier decides the exception |
| `JavaVersions.Parse` | sulky-version/src/main/java/de/huxhorn/sulky/version/JavaVersion.java:133-170 | null raises its own exception; every failure is null, no match or a NumberFormatException; a parsed identifier never holds a line terminator |
| `JavaVersions.ToVersionString` | sulky-version/src/main/java/de/huxhorn/sulky/version/JavaVersion.java:248-267 | the rendering is exactly the text a pattern match with the groups `RenderedGroups` describes consumes |
| `JavaVersions.PatchDigits` | sulky-version/src/main/java/de/huxhorn/sulky/version/JavaVersion.java:252-260 | the rendered patch is a digit run denoting the patch: exactly two digits, the first `0`, below 10, and plain decimal without a leading zero from 10 on |
| `JavaVersions.PatchTextUnique` | sulky-version/src/main/java/de/huxhorn/sulky/version/JavaVersion.java:255-259 | only one text meets the patch rendering's contract, so it fixes the padding exactly |
| `JavaVersions.RenderedGroups` | sulky-version/src/main/java/de/huxhorn/sulky/version/JavaVersion.java:248-267 | the rendering writes huge, major and minor in decimal without leading zeros, the minor always; the patch exactly when it is not 0, padded to exactly two digits below 10; the identifier verbatim when present; each group denotes its field |
| `JavaVersions.HashCode` | sulky-version/src/main/java/de/huxhorn/sulky/version/JavaVersion.java:286-295 | the hash wrapped step by step is `31^4 huge + 31^3 major + 31^2 minor + 31 patch + identifier hash` (0 for null), wrapped once to `int` |
| `JavaVersions.Equals` | sulky-version/src/main/java/de/huxhorn/sulky/version/JavaVersion.java:270-284 | `equals` holds exactly for a non-null version with the same five fields |
| `JavaVersions.CompareTo` | sulky-version/src/main/java/de/huxhorn/sulky/version/JavaVersion.java:311-370 | a numeric difference gives -1 or 1; on equal numbers two releases give 0, a release is above an identifier (1 and -1) |
| `JavaVersions.CompareToNullable` | sulky-version/src/main/java/de/huxhorn/sulky/version/JavaVersion.java:313-316 | comparing with null raises a NullPointerException, and only null does |
| `JavaVersions.SystemJavaVersion` | sulky-version/src/main/java/de/huxhorn/sulky/version/JavaVersion.java:90-131 | a `java.version` that parses wins; otherwise the result exists exactly when `java.specification.version` parses, and is that version |
| `JavaVersions.Jvm` | sulky-version/src/main/java/de/huxhorn/sulky/version/JavaVersion.java:77-88 | the runtime version is the parsed `java.version`, else the parsed `java.specification.version`, else `MIN_VALUE` |
| `VersionPattern.SpanDigits` | sulky-version/src/main/java/de/huxhorn/sulky/version/JavaVersion.java:47 | a `\d+` run is taken greedily: all digits, and the next character is not one |
| `VersionPattern.ScanSound` | sulky-version/src/main/java/de/huxhorn/sulky/version/JavaVersion.java:139-143 | groups the scanner returns form a match of the whole input |
| `VersionPattern.ScanComplete` | sulky-version/src/main/java/de/huxhorn/sulky/version/JavaVersion.java:47 | every whole-input match is found by the scanner, so its groups are unique |
| `VersionPattern.ScanIff` | sulky-version/src/main/java/de/huxhorn/sulky/version/JavaVersion.java:139-140 | the scanner returns `g` if and only if the input matches with groups `g` |
| `Decimal.ParseInt` | sulky-version/src/main/java/de/huxhorn/sulky/version/JavaVersion.java:152-166 | `Integer.parseInt` of a digit run succeeds exactly when its value fits in an `int`, and returns that value |
| `Decimal.ToDecimal` | sulky-version/src/main/java/de/huxhorn/sulky/version/JavaVersion.java:251 | appending an `int` writes a digit run without leading zeros that denotes it, a single digit below 10 |
| `Decimal.CanonicalUnique` | sulky-version/src/main/java/de/huxhorn/sulky/version/JavaVersion.java:251 | decimal text without a leading zero is determined by its value, so it is what `append(int)` writes |
| `JavaString.CompareToNegativeIff` | sulky-version/src/main/java/de/huxhorn/sulky/version/JavaVersion.java:369 | `String.compareTo` is negative exactly when the first string is lexicographically before the second by code units |
| `JavaString.CompareToZeroIff` | sulky-version/src/main/java/de/huxhorn/sulky/version/JavaVersion.java:368-369 | `String.compareTo` is zero exactly on equal strings |
| `JavaString.CompareToAntisymmetric` | sulky-version/src/main/java/de/huxhorn/sulky/version/JavaVersion.java:367-369 | swapping the strings negates `String.compareTo` |
| `JavaString.CompareToTransitive` | sulky-version/src/main/java/de/huxhorn/sulky/version/JavaVersion.java:366-369 | a negative `String.compareTo` is transitive |
| `JavaString.HashCodeIsPolynomial` | sulky-version/src/main/java/de/huxhorn/sulky/version/JavaVersion.java:293 | `String.hashCode` is the base-31 polynomial of the code units, wrapped once to `int` |
| `JavaInt.WrapStep` | sulky-version/src/main/java/de/huxhorn/sulky/version/JavaVersion.java:290-292 | wrapping an intermediate `31 * result + field` does not change the wrapped final result |
| `JavaVersionOrder.CompareToNegativeIff` | sulky-version/src/main/java/de/huxhorn/sulky/version/JavaVersion.java:311-370 | `compareTo` is negative exactly when `Before` holds: numbers lexicographically, then identifier before release, then identifiers by code units |
| `JavaVersionOrder.CompareToZeroIff` | sulky-version/src/main/java/de/huxhorn/sulky/version/JavaVersion.java:270-284 | `compareTo` is zero exactly on equal versions, which is exactly when `equals` holds |
| `JavaVersionOrder.CompareToAntisymmetric` | sulky-version/src/main/java/de/huxhorn/sulky/version/JavaVersion.java:317-348 | `compareTo(a, b) == -compareTo(b, a)` |
| `JavaVersionOrder.CompareToTransitive` | sulky-version/src/main/java/de/huxhorn/sulky/version/JavaVersion.java:317-369 | less-than by `compareTo` is transitive |
| `JavaVersionOrder.CompareToTransitiveNonStrict` | sulky-version/src/main/java/de/huxhorn/sulky/version/JavaVersion.java:311-370 | at-most by `compareTo` is transitive |
| `JavaVersionOrder.BeforeIsStrictTotalOrder` | sulky-version/src/main/java/de/huxhorn/sulky/version/JavaVersion.java:44-45 | the order `compareTo` induces is irreflexive, transitive, total and asymmetric on versions |
| `JavaVersionOrder.HashCodeConsistent` | sulky-version/src/main/java/de/huxhorn/sulky/version/JavaVersion.java:286-295 | versions that are `equals` have equal hash codes |
| `JavaVersionOrder.MinValueBelowIff` | sulky-version/src/main/java/de/huxhorn/sulky/version/JavaVersion.java:65-68 | `MIN_VALUE` is at or below a version exactly when that version is not 0.0.0 with an identifier |
| `JavaVersionOrder.MinValueLeastRelease` | sulky-version/src/main/java/de/huxhorn/sulky/version/JavaVersion.java:68 | `MIN_VALUE` is at or below every version without an identifier |
| `JavaVersionOrder.MinValueNotLeast` | sulky-version/src/main/java/de/huxhorn/sulky/version/JavaVersion.java:66 | 0.0.0-ea is below the version documented as smallest |
| `JavaVersionOrder.CompareToExamples` | sulky-version/src/main/java/de/huxhorn/sulky/version/JavaVersion.java:341-369 | 1.8.0 is above 1.8.0-ea, 1.8.0_25 above 1.8.0_24, and 1.8.0-ea below 1.8.0-rc |
| `JavaVersionOrder.IdentifiersCompareLexically` | sulky-version/src/main/java/de/huxhorn/sulky/version/JavaVersion.java:367-369 | identifiers compare as text, so `rc10` is below `rc2` |
| `JavaVersionLaws.ParseMatch` | sulky-version/src/main/java/de/huxhorn/sulky/version/JavaVersion.java:139-169 | a string matching with groups `g` parses to what `g` denotes: its numbers, or a NumberFormatException for the first overflowing group |
| `JavaVersionLaws.ParseInvalidIff` | sulky-version/src/main/java/de/huxhorn/sulky/version/JavaVersion.java:139-143 | `parse` reports an invalid string exactly when no match of the whole string exists |
| `JavaVersionLaws.ParseSuccess` | sulky-version/src/main/java/de/huxhorn/sulky/version/JavaVersion.java:133-170 | every successfully parsed version is the denotation of a whole-string match |
| `JavaVersionLaws.LineTerminatorNeverParses` | sulky-version/src/main/java/de/huxhorn/sulky/version/JavaVersion.java:47 | a string holding a line terminator is rejected as invalid |
| `JavaVersionLaws.SpellHasNoLineTerminator` | sulky-version/src/main/java/de/huxhorn/sulky/version/JavaVersion.java:47 | no text the pattern matches holds a line terminator |
| `JavaVersionLaws.RoundTrip` | sulky-version/src/main/java/de/huxhorn/sulky/version/JavaVersion.java:248-267 | parsing the rendering of a version gives the version back, when its identifier has no line terminator |
| `JavaVersionLaws.RoundTripFailsOnLineTerminator` | sulky-version/src/main/java/de/huxhorn/sulky/version/JavaVersion.java:211-214 | a version the constructor accepts with a line terminator in its identifier does not survive the round trip |
| `JavaVersionLaws.RenderParsedIsStable` | sulky-version/src/main/java/de/huxhorn/sulky/version/JavaVersion.java:133-170 | rendering a parsed version and parsing again gives the same version |
| `JavaVersionLaws.ParseSpecificationVersion` | sulky-version/src/main/java/de/huxhorn/sulky/version/JavaVersion.java:60-63 | `1.8` parses to 1.8.0 with patch 0 and no identifier |
| `JavaVersionLaws.ParseFullVersion` | sulky-version/src/main/java/de/huxhorn/sulky/version/JavaVersion.java:152-169 | `1.8.0_25-ea` parses to all five fields |
| `JavaVersionLaws.ParseShortPatch` | sulky-version/src/main/java/de/huxhorn/sulky/version/JavaVersion.java:162-166 | `1.8.0_5` parses with patch 5 |
| `JavaVersionLaws.ParseEarlyAccess` | sulky-version/src/main/java/de/huxhorn/sulky/version/JavaVersion.java:168-169 | `1.8.0-ea` parses with patch 0 and identifier `ea` |
| `JavaVersionLaws.RenderReleaseExample` | sulky-version/src/main/java/de/huxhorn/sulky/version/JavaVersion.java:251-252 | 1.8.0 renders as `1.8.0`: the minor is written, a zero patch is not |
| `JavaVersionLaws.RenderPaddedPatchExample` | sulky-version/src/main/java/de/huxhorn/sulky/version/JavaVersion.java:255-258 | patch 5 renders as `_05` |
| `JavaVersionLaws.RenderIdentifierExample` | sulky-version/src/main/java/de/huxhorn/sulky/version/JavaVersion.java:261-265 | the identifier follows a `-` after the patch |
| `JavaVersionLaws.ParseForgetsZeroPatch` | sulky-version/src/main/java/de/huxhorn/sulky/version/JavaVersion.java:162-166 | `1.8.0_00` parses to 1.8.0, whose rendering differs from the input |
| `JavaVersionLaws.ParseForgetsLeadingZero` | sulky-version/src/main/java/de/huxhorn/sulky/version/JavaVersion.java:152 | `01.8` parses to 1.8.0, whose rendering differs from the input |
| `JavaVersionLaws.ParseRejectsTrailingText` | sulky-version/src/main/java/de/huxhorn/sulky/version/JavaVersion.java:104-107 | `1.8.0_25.1` is an invalid version string |
| `JavaVersionLaws.ParseRejectsDanglingDash` | sulky-version/src/main/java/de/huxhorn/sulky/version/JavaVersion.java:139-143 | `1.8-` is invalid: the identifier needs a character |
| `JavaVersionLaws.ParseRejectsDanglingUnderscore` | sulky-version/src/main/java/de/huxhorn/sulky/version/JavaVersion.java:140-142 | `1.8.0_` is invalid: the patch needs digits |
| `JavaVersionLaws.ParseRejectsPatchWithoutMinor` | sulky-version/src/main/java/de/huxhorn/sulky/version/JavaVersion.java:141-143 | `1.8_25` is invalid: a patch needs a minor |
| `JavaVersionLaws.ParseRejectsMissingNumbers` | sulky-version/src/main/java/de/huxhorn/sulky/version/JavaVersion.java:140-143 | `garbage`, `.8` and `1` are invalid |
| `JavaVersionLaws.ParseRejectsOverflow` | sulky-version/src/main/java/de/huxhorn/sulky/version/JavaVersion.java:153 | `1.2147483648` matches but raises a NumberFormatException for the major |
| `JavaVersionLaws.JvmOfRenderedVersion` | sulky-version/src/main/java/de/huxhorn/sulky/version/JavaVersion.java:94-98 | a runtime whose `java.version` is a rendered version is identified as that version |
| `JavaVersionLaws.JvmPrefersJavaVersion` | sulky-version/src/main/java/de/huxhorn/sulky/version/JavaVersion.java:94-97 | `java.version` `1.8.0_25` wins over `java.specification.version` `1.8` |
| `JavaVersionLaws.JvmFallsBackToSpecificationVersion` | sulky-version/src/main/java/de/huxhorn/sulky/version/JavaVersion.java:109-118 | a `java.version` of `1.8.0_25.1` falls back to `java.specification.version` `1.8` |
| `JavaVersionLaws.JvmWithoutProperties` | sulky-version/src/main/java/de/huxhorn/sulky/version/JavaVersion.java:81-85 | without either property there is no system version and the runtime version is `MIN_VALUE` |

## Left out

- Reading the system properties and the SecurityException a read may raise.
  Both properties are inputs of `SystemJavaVersion` and `Jvm`. A read that is
  unset or denied is `None`; the code treats the two alike.
- The one-time static initialisation that stores `JVM`. `Jvm` is the value
  it stores.
- `toString` (lines 297-307). It is a debugging aid with no contract.
- The two-, three- and four-argument constructors (lines 178-191). They
  call the five-argument one with zeros and a null identifier, which is
  `New` applied to those arguments.
- The getters (lines 223-246). They are the datatype's fields.
- The `this == o` shortcut and the `getClass()` check in `equals`.
  `Equals` compares with a possibly-null `JavaVersion`; objects of other
  classes, including subclasses, are not modelled.
- The regular-expression engine. `Scan` is a deterministic scanner proved
  equivalent to the pattern's whole-input matches, not a model of
  `java.util.regex`.
- The message texts of the exceptions. Each exception is an `Error`
  constructor carrying the data it reports.
- `Integer.parseInt` on a sign, non-ASCII digits or an empty string. The
  pattern's groups never hold any of these.
