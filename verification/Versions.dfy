/** Versions and version ranges (workspace/src/framework/impl/utils/version.cpp:12-17, 55-114,
    workspace/src/framework/impl/utils/version_range.cpp:117-145). */
module Versions {
  import opened Wrappers

  datatype Version = Version(major: nat, minor: nat, patch: nat, qualifier: string)

  datatype VersionRange = VersionRange(
    minimum: Version, maximum: Version, includeMinimum: bool, includeMaximum: bool, hasMinimum: bool, hasMaximum: bool)

  /** The constructor refuses negative numbers. */
  method MakeVersion(major: int, minor: int, patch: int, qualifier: string) returns (r: Result<Version, string>)
    ensures r.Failure? <==> major < 0 || minor < 0 || patch < 0
    ensures r.Success? ==> r.value.major == major && r.value.minor == minor && r.value.patch == patch && r.value.qualifier == qualifier
  {
    if major < 0 || minor < 0 || patch < 0 {
      return Failure("Version numbers cannot be negative");
    }
    return Success(Version(major, minor, patch, qualifier));
  }

  /** The order of std::string: lexicographic, a proper prefix first. */
  function CompareText(a: string, b: string): int {
    if a == [] && b == [] then 0
    else if a == [] then -1
    else if b == [] then 1
    else if a[0] != b[0] then (if a[0] < b[0] then -1 else 1)
    else CompareText(a[1..], b[1..])
  }

  /** No qualifier is greater than any. */
  function Compare(v: Version, w: Version): int {
    if v.major != w.major then (if v.major < w.major then -1 else 1)
    else if v.minor != w.minor then (if v.minor < w.minor then -1 else 1)
    else if v.patch != w.patch then (if v.patch < w.patch then -1 else 1)
    else if v.qualifier == "" && w.qualifier != "" then 1
    else if v.qualifier != "" && w.qualifier == "" then -1
    else CompareText(v.qualifier, w.qualifier)
  }

  predicate AtMost(v: Version, w: Version) {
    Compare(v, w) <= 0
  }

  function Includes(r: VersionRange, v: Version): bool {
    if r.hasMinimum && (if r.includeMinimum then Compare(v, r.minimum) < 0 else Compare(v, r.minimum) <= 0) then false
    else if r.hasMaximum && (if r.includeMaximum then Compare(v, r.maximum) > 0 else Compare(v, r.maximum) >= 0) then false
    else true
  }

  // ---------------------------------------------------------------------------------------------
  // The order is total
  // ---------------------------------------------------------------------------------------------

  lemma {:induction false} TextOrderIsAntisymmetric(a: string, b: string)
    ensures CompareText(a, b) == -CompareText(b, a)
    ensures CompareText(a, b) == 0 <==> a == b
  {
    if a != [] && b != [] {
      TextOrderIsAntisymmetric(a[1..], b[1..]);
      assert a == [a[0]] + a[1..] && b == [b[0]] + b[1..];
    }
  }

  lemma {:induction false} TextOrderIsTransitive(a: string, b: string, c: string)
    requires CompareText(a, b) <= 0 && CompareText(b, c) <= 0
    ensures CompareText(a, c) <= 0
  {
    if a != [] && b != [] && c != [] && a[0] == b[0] == c[0] {
      TextOrderIsTransitive(a[1..], b[1..], c[1..]);
    }
  }

  /** Versions compare equal only when they are the same; and turning a comparison round changes its sign. */
  lemma OrderIsAntisymmetric(v: Version, w: Version)
    ensures Compare(v, w) == -Compare(w, v)
    ensures Compare(v, w) == 0 <==> v == w
  {
    hide CompareText;
    TextOrderIsAntisymmetric(v.qualifier, w.qualifier);
  }

  lemma OrderIsTransitive(u: Version, v: Version, w: Version)
    requires AtMost(u, v) && AtMost(v, w)
    ensures AtMost(u, w)
  {
    hide CompareText;
    TextOrderIsAntisymmetric(u.qualifier, v.qualifier);
    TextOrderIsAntisymmetric(v.qualifier, w.qualifier);
    if CompareText(u.qualifier, v.qualifier) <= 0 && CompareText(v.qualifier, w.qualifier) <= 0 {
      TextOrderIsTransitive(u.qualifier, v.qualifier, w.qualifier);
    }
  }

  // ---------------------------------------------------------------------------------------------
  // Which order it is
  // ---------------------------------------------------------------------------------------------

  /** `a` is a proper beginning of `b`, or has the smaller character where they first differ. */
  predicate TextBelow(a: string, b: string) {
    || (a <= b && a != b)
    || (exists k :: 0 <= k < |a| && k < |b| && a[..k] == b[..k] && a[k] < b[k])
  }

  /** Texts are in dictionary order. */
  lemma {:induction false} TextOrderIsLexicographic(a: string, b: string)
    ensures CompareText(a, b) < 0 <==> TextBelow(a, b)
  {
    if a != [] && b != [] {
      assert a == [a[0]] + a[1..] && b == [b[0]] + b[1..];
      if a[0] == b[0] {
        TextOrderIsLexicographic(a[1..], b[1..]);
        SameHead(a, b);
      } else {
        forall k: nat | k < |a| && k < |b| && a[..k] == b[..k]
          ensures k == 0
        {
          HeadsDiffer(a, b, k);
        }
        assert a[..0] == b[..0];
      }
    }
  }

  lemma HeadsDiffer(a: string, b: string, k: nat)
    requires k < |a| && k < |b| && a[0] != b[0]
    ensures a[..k] == b[..k] ==> k == 0
  {
    assert k > 0 ==> a[..k][0] != b[..k][0];
  }

  lemma SameHead(a: string, b: string)
    requires a != [] && b != [] && a[0] == b[0]
    ensures TextBelow(a, b) <==> TextBelow(a[1..], b[1..])
  {
    var s, t := a[1..], b[1..];
    assert a == [a[0]] + s && b == [b[0]] + t;
    if k :| 0 <= k < |s| && k < |t| && s[..k] == t[..k] && s[k] < t[k] {
      assert a[..k + 1] == [a[0]] + s[..k] && b[..k + 1] == [b[0]] + t[..k];
      assert a[k + 1] < b[k + 1];
    }
    if k :| 0 <= k < |a| && k < |b| && a[..k] == b[..k] && a[k] < b[k] {
      assert s[..k - 1] == a[..k][1..] && t[..k - 1] == b[..k][1..];
      assert s[k - 1] < t[k - 1];
    }
  }

  /** With equal numbers a release is above all its pre-releases, and these are in dictionary order. */
  predicate QualifierBelow(a: string, b: string) {
    a != "" && (b == "" || TextBelow(a, b))
  }

  /** The numbers decide in their order, whatever comes behind them, and the qualifier decides last. */
  lemma FieldsDecideInTurn(v: Version, w: Version)
    ensures v.major < w.major ==> Compare(v, w) < 0
    ensures v.major == w.major && v.minor < w.minor ==> Compare(v, w) < 0
    ensures v.major == w.major && v.minor == w.minor && v.patch < w.patch ==> Compare(v, w) < 0
    ensures v.major == w.major && v.minor == w.minor && v.patch == w.patch ==>
              (Compare(v, w) < 0 <==> QualifierBelow(v.qualifier, w.qualifier))
  {
    TextOrderIsLexicographic(v.qualifier, w.qualifier);
  }

  /** A release is above each of its pre-releases, and a longer qualifier above its beginnings. */
  lemma ReleasesAreAbovePreReleases(release: Version, qualifier: string, more: string)
    requires release.qualifier == "" && qualifier != "" && more != ""
    ensures Compare(release.(qualifier := qualifier), release) < 0
    ensures Compare(release.(qualifier := qualifier), release.(qualifier := qualifier + more)) < 0
  {
    FieldsDecideInTurn(release.(qualifier := qualifier), release);
    FieldsDecideInTurn(release.(qualifier := qualifier), release.(qualifier := qualifier + more));
  }

  /** What a range says: at least its minimum, at most its maximum, and a bound itself only if included. */
  lemma RangeMeaning(r: VersionRange, v: Version)
    ensures Includes(r, v) <==>
            && (r.hasMinimum ==> AtMost(r.minimum, v) && (v == r.minimum ==> r.includeMinimum))
            && (r.hasMaximum ==> AtMost(v, r.maximum) && (v == r.maximum ==> r.includeMaximum))
  {
    OrderIsAntisymmetric(v, r.minimum);
    OrderIsAntisymmetric(v, r.maximum);
  }

  /** A range is an interval of the order: it has no gaps. */
  lemma RangesHaveNoGaps(r: VersionRange, u: Version, v: Version, w: Version)
    requires AtMost(u, v) && AtMost(v, w) && Includes(r, u) && Includes(r, w)
    ensures Includes(r, v)
  {
    OrderIsAntisymmetric(v, r.minimum);
    OrderIsAntisymmetric(u, r.minimum);
    OrderIsAntisymmetric(v, r.maximum);
    OrderIsAntisymmetric(w, r.maximum);
    OrderIsAntisymmetric(u, v);
    OrderIsAntisymmetric(v, w);
    if AtMost(v, r.minimum) {
      OrderIsTransitive(u, v, r.minimum);
    }
    if AtMost(r.maximum, v) {
      OrderIsTransitive(r.maximum, v, w);
    }
  }
}
