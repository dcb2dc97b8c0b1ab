/**
 * PHP version strings as the analyser compares them with version_compare.
 * A version is taken to be dotted numeric and is held as the sequence of its
 * numeric components: '5.3.0' is [5, 3, 0]. The empty string '' is the empty
 * sequence and sorts before every other version.
 */
module Versions {
  import opened Strings

  type Version = seq<nat>

  const V400: Version := [4, 0, 0]
  const V500: Version := [5, 0, 0]
  const V530: Version := [5, 3, 0]
  const V540: Version := [5, 4, 0]
  const V560: Version := [5, 6, 0]

  /**
   * version_compare(a, b, 'lt'): components are compared left to right and,
   * when one version runs out first, the shorter one is the lesser
   * ('5.3' < '5.3.0', '' < '4.0.0').
   */
  predicate Less(a: Version, b: Version)
    decreases |a|
  {
    if a == [] then b != []
    else b != [] && (a[0] < b[0] || (a[0] == b[0] && Less(a[1..], b[1..])))
  }

  predicate LessEq(a: Version, b: Version) {
    a == b || Less(a, b)
  }

  lemma {:induction false} LessIrreflexive(a: Version)
    ensures !Less(a, a)
    decreases |a|
  {
    if a != [] {
      LessIrreflexive(a[1..]);
    }
  }

  lemma {:induction false} LessTransitive(a: Version, b: Version, c: Version)
    requires Less(a, b) && Less(b, c)
    ensures Less(a, c)
    decreases |a|
  {
    if a != [] && a[0] == b[0] && b[0] == c[0] {
      LessTransitive(a[1..], b[1..], c[1..]);
    }
  }

  lemma {:induction false} LessTotal(a: Version, b: Version)
    ensures a == b || Less(a, b) || Less(b, a)
    decreases |a|
  {
    if a != [] && b != [] && a[0] == b[0] {
      LessTotal(a[1..], b[1..]);
      if a[1..] == b[1..] {
        assert a == [a[0]] + a[1..] && b == [b[0]] + b[1..];
      }
    }
  }

  lemma {:induction false} LessAsymmetric(a: Version, b: Version)
    requires Less(a, b)
    ensures !Less(b, a)
    decreases |a|
  {
    if a != [] && a[0] == b[0] {
      LessAsymmetric(a[1..], b[1..]);
    }
  }

  lemma LessEqTransitive(a: Version, b: Version, c: Version)
    requires LessEq(a, b) && LessEq(b, c)
    ensures LessEq(a, c)
  {
    if a != b && b != c {
      LessTransitive(a, b, c);
    }
  }

  /**
   * updateVersion(current, &base): the base afterwards. It is the greater of
   * the two, so the base never goes down, and an empty current leaves it as it was.
   */
  function UpdateVersion(current: Version, base: Version): (r: Version)
    ensures LessEq(base, r) && LessEq(current, r)
    ensures r == base || r == current
    ensures current == [] ==> r == base
  {
    LessTotal(current, base);
    if Less(base, current) then current else base
  }

  /** The raised base is the least version above both. */
  lemma UpdateVersionLeast(current: Version, base: Version, bound: Version)
    requires LessEq(current, bound) && LessEq(base, bound)
    ensures LessEq(UpdateVersion(current, base), bound)
  {
  }

  lemma UpdateVersionCommutes(a: Version, b: Version)
    ensures UpdateVersion(a, b) == UpdateVersion(b, a)
  {
    LessTotal(a, b);
    if Less(a, b) {
      LessAsymmetric(a, b);
    }
  }

  lemma UpdateVersionIdempotent(a: Version)
    ensures UpdateVersion(a, a) == a
  {
    LessIrreflexive(a);
  }

  /** Raising twice by the same version is raising once. */
  lemma UpdateVersionAbsorbs(current: Version, base: Version)
    ensures UpdateVersion(current, UpdateVersion(current, base)) == UpdateVersion(current, base)
  {
    var r := UpdateVersion(current, base);
    if r != current {
      LessTotal(current, r);
      assert Less(current, r);
      LessAsymmetric(current, r);
    } else {
      LessIrreflexive(current);
    }
  }

  lemma UpdateVersionAssociates(a: Version, b: Version, c: Version)
    ensures UpdateVersion(a, UpdateVersion(b, c)) == UpdateVersion(UpdateVersion(a, b), c)
  {
    var bc, ab := UpdateVersion(b, c), UpdateVersion(a, b);
    var l, r := UpdateVersion(a, bc), UpdateVersion(ab, c);
    // r is above a, b and c, hence above b and c's maximum, hence above l
    LessEqTransitive(a, ab, r);
    LessEqTransitive(b, ab, r);
    UpdateVersionLeast(b, c, r);
    UpdateVersionLeast(a, bc, r);
    // and symmetrically l is above r
    LessEqTransitive(b, bc, l);
    LessEqTransitive(c, bc, l);
    UpdateVersionLeast(a, b, l);
    UpdateVersionLeast(ab, c, l);
    if l != r {
      LessAsymmetric(l, r);
    }
  }

  /** A version as PHP prints it: its components joined by dots. */
  function VersionString(v: Version): (s: string)
    ensures v == [] <==> s == ""
    ensures forall i :: 0 <= i < |s| ==> IsDigit(s[i]) || s[i] == '.'
    ensures '.' in s <==> |v| >= 2
    ensures |v| >= 1 ==> |NatToString(v[0])| <= |s| && s[..|NatToString(v[0])|] == NatToString(v[0])
  {
    if v == [] then ""
    else if |v| == 1 then
      SeparatorNotInDigits(v[0], '.');
      NatToString(v[0])
    else
      var r := NatToString(v[0]) + "." + VersionString(v[1..]);
      assert r[|NatToString(v[0])|] == '.';
      assert r[..|NatToString(v[0])|] == NatToString(v[0]);
      r
  }

  /** Distinct versions print differently, so a printed version names one version. */
  lemma {:induction false} VersionStringInjective(a: Version, b: Version)
    requires VersionString(a) == VersionString(b)
    ensures a == b
    decreases |a|
  {
    if a != [] {
      if |a| == 1 {
        NatToStringInjective(a[0], b[0]);
      } else {
        var x, y := NatToString(a[0]), VersionString(a[1..]);
        var u, v := NatToString(b[0]), VersionString(b[1..]);
        SplitAtFirst(x, y, u, v, '.');
        NatToStringInjective(a[0], b[0]);
        VersionStringInjective(a[1..], b[1..]);
        assert a == [a[0]] + a[1..] && b == [b[0]] + b[1..];
      }
    }
  }
}
