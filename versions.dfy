/**
 * Version ordering used by the submission check: the release segment of a PEP 440
 * version ("Final releases", N(.N)*), whose components compare numerically, the
 * shorter release being padded with zeros ("1.0" == "1.0.0"). Surrounding whitespace
 * and a leading "v" are accepted, as `packaging.version` does; every other form is
 * treated as an invalid version.
 */
module Versions {
  import opened Wrappers
  import opened Strings

  type Release = seq<nat>

  /** The components of a dot-separated list of digit runs: defined exactly when every
      piece is a non-empty run of ASCII digits, and then one value per piece. */
  function Components(parts: seq<string>): (r: Option<Release>)
    ensures r.Some? <==> forall i :: 0 <= i < |parts| ==> IsDigits(parts[i])
    ensures r.Some? ==> (|r.value| == |parts| &&
      forall i :: 0 <= i < |parts| ==> IsDigits(parts[i]) && r.value[i] == DigitsValue(parts[i]))
  {
    if parts == [] then Some([])
    else if !IsDigits(parts[0]) then None
    else
      match Components(parts[1..])
      case None => None
      case Some(rest) => Some([DigitsValue(parts[0])] + rest)
  }

  /** The release part of a version string: surrounding whitespace and one leading
      'v' or 'V' removed. */
  function ReleaseText(s: string): string
  {
    var t := Strip(s);
    if |t| >= 1 && (t[0] == 'v' || t[0] == 'V') then t[1..] else t
  }

  /** `packaging.version.parse`, restricted to release segments; None is `InvalidVersion`.
      A version is accepted exactly when its release text is one or more non-empty digit
      runs joined by '.', and its components are the values of those runs. */
  function ParseVersion(s: string): (r: Option<Release>)
    ensures r.Some? <==> forall i :: 0 <= i < |Split(ReleaseText(s), '.')| ==> IsDigits(Split(ReleaseText(s), '.')[i])
    ensures r.Some? ==> (|r.value| == |Split(ReleaseText(s), '.')| >= 1 &&
      forall i :: 0 <= i < |r.value| ==> r.value[i] == DigitsValue(Split(ReleaseText(s), '.')[i]))
  {
    ComponentsOfRelease(s);
    Components(Split(ReleaseText(s), '.'))
  }

  lemma ComponentsOfRelease(s: string)
    ensures Components(Split(ReleaseText(s), '.')).Some? <==>
      forall i :: 0 <= i < |Split(ReleaseText(s), '.')| ==> IsDigits(Split(ReleaseText(s), '.')[i])
  {
  }

  /** Component `i`, zero when the release is shorter. */
  function At(v: Release, i: nat): nat
  {
    if i < |v| then v[i] else 0
  }

  function Tail(v: Release): Release
  {
    if v == [] then [] else v[1..]
  }

  /** -1, 0 or 1 as `a` is older than, equal to or newer than `b`. */
  function Compare(a: Release, b: Release): (c: int)
    ensures -1 <= c <= 1
    decreases |a| + |b|
  {
    if a == [] && b == [] then 0
    else if At(a, 0) < At(b, 0) then -1
    else if At(a, 0) > At(b, 0) then 1
    else Compare(Tail(a), Tail(b))
  }

  lemma TailAt(v: Release, i: nat)
    ensures At(Tail(v), i) == At(v, i + 1)
  {
  }

  /** Equal releases are those agreeing on every (zero-padded) component. */
  lemma {:induction false} CompareZeroIff(a: Release, b: Release)
    ensures Compare(a, b) == 0 <==> forall i: nat :: At(a, i) == At(b, i)
    decreases |a| + |b|
  {
    if a == [] && b == [] {
    } else if At(a, 0) != At(b, 0) {
    } else {
      CompareZeroIff(Tail(a), Tail(b));
      if Compare(a, b) == 0 {
        forall i: nat
          ensures At(a, i) == At(b, i)
        {
          if i > 0 {
            TailAt(a, i - 1);
            TailAt(b, i - 1);
          }
        }
      } else {
        assert At(Tail(a), 0) != At(Tail(b), 0) || exists i: nat :: At(Tail(a), i) != At(Tail(b), i);
        var i: nat :| At(Tail(a), i) != At(Tail(b), i);
        TailAt(a, i);
        TailAt(b, i);
      }
    }
  }

  /** Older-than is lexicographic order on the zero-padded components. */
  lemma {:induction false} CompareLessIff(a: Release, b: Release)
    ensures Compare(a, b) < 0 <==>
      exists k: nat :: At(a, k) < At(b, k) && forall i: nat :: i < k ==> At(a, i) == At(b, i)
    decreases |a| + |b|
  {
    if a == [] && b == [] {
    } else if At(a, 0) < At(b, 0) {
      assert At(a, 0) < At(b, 0) && forall i: nat :: i < 0 ==> At(a, i) == At(b, i);
    } else if At(a, 0) > At(b, 0) {
      forall k: nat | At(a, k) < At(b, k)
        ensures exists i: nat :: i < k && At(a, i) != At(b, i)
      {
        assert 0 < k && At(a, 0) != At(b, 0);
      }
    } else {
      CompareLessIff(Tail(a), Tail(b));
      if Compare(a, b) < 0 {
        var k: nat :| At(Tail(a), k) < At(Tail(b), k) && forall i: nat :: i < k ==> At(Tail(a), i) == At(Tail(b), i);
        TailAt(a, k);
        TailAt(b, k);
        forall i: nat | i < k + 1
          ensures At(a, i) == At(b, i)
        {
          if i > 0 {
            TailAt(a, i - 1);
            TailAt(b, i - 1);
          }
        }
      } else if exists k: nat :: At(a, k) < At(b, k) && forall i: nat :: i < k ==> At(a, i) == At(b, i) {
        var k: nat :| At(a, k) < At(b, k) && forall i: nat :: i < k ==> At(a, i) == At(b, i);
        assert k != 0;
        TailAt(a, k - 1);
        TailAt(b, k - 1);
        forall i: nat | i < k - 1
          ensures At(Tail(a), i) == At(Tail(b), i)
        {
          TailAt(a, i);
          TailAt(b, i);
        }
        assert false;
      }
    }
  }

  /** Swapping the arguments flips the verdict. */
  lemma {:induction false} CompareAntisymmetric(a: Release, b: Release)
    ensures Compare(b, a) == -Compare(a, b)
    decreases |a| + |b|
  {
    if !(a == [] && b == []) && At(a, 0) == At(b, 0) {
      CompareAntisymmetric(Tail(a), Tail(b));
    }
  }

  /** Newer-than is transitive, so the "strictly higher" rule cannot cycle. */
  lemma {:induction false} CompareTransitive(a: Release, b: Release, c: Release)
    requires Compare(a, b) > 0 && Compare(b, c) > 0
    ensures Compare(a, c) > 0
    decreases |a| + |b| + |c|
  {
    if At(a, 0) == At(b, 0) && At(b, 0) == At(c, 0) {
      CompareTransitive(Tail(a), Tail(b), Tail(c));
    }
  }

  /** Trailing zero components do not change a version. */
  lemma {:induction false} ZeroPaddingEqual(a: Release, n: nat)
    ensures Compare(a, a + seq(n, _ => 0)) == 0
  {
    var b := a + seq(n, _ => 0);
    forall i: nat
      ensures At(a, i) == At(b, i)
    {
      if i >= |a| && i < |b| {
        assert b[i] == 0;
      }
    }
    CompareZeroIff(a, b);
  }

  /** The outcome of the "strictly higher version" rule for a resubmission. */
  datatype VersionVerdict = Higher | NotHigher | Unparseable

  /** `parse_version(current)` and `parse_version(submitted)`, then `submitted > current`;
      a NULL current version is unparseable too. */
  function CheckHigher(current: Option<string>, submitted: string): (v: VersionVerdict)
    ensures v == Unparseable <==>
      current.None? || ParseVersion(current.value).None? || ParseVersion(submitted).None?
    ensures v == Higher <==>
      current.Some? && ParseVersion(current.value).Some? && ParseVersion(submitted).Some? &&
      Compare(ParseVersion(submitted).value, ParseVersion(current.value).value) > 0
  {
    if current.None? then Unparseable
    else
      match (ParseVersion(current.value), ParseVersion(submitted))
      case (Some(cur), Some(sub)) => if Compare(sub, cur) > 0 then Higher else NotHigher
      case _ => Unparseable
  }

  /** Resubmitting the version that is already live is refused. */
  lemma SameVersionNotHigher(v: string)
    requires ParseVersion(v).Some?
    ensures CheckHigher(Some(v), v) == NotHigher
  {
    CompareAntisymmetric(ParseVersion(v).value, ParseVersion(v).value);
  }

  /** A dot-joined list of digit runs parses to their values. */
  lemma {:induction false} ParseDotted(parts: seq<string>, r: Release)
    requires |parts| == |r| >= 1
    requires forall i :: 0 <= i < |parts| ==> IsDigits(parts[i]) && DigitsValue(parts[i]) == r[i]
    ensures ParseVersion(Join(parts, ".")) == Some(r)
  {
    var s := Join(parts, ".");
    JoinEnds(parts);
    assert IsDigit(s[0]) && IsDigit(s[|s| - 1]);
    StripUnpadded(s);
    forall i | 0 <= i < |parts|
      ensures '.' !in parts[i]
    {
      NoSpaceInDigits(parts[i]);
    }
    SplitJoin(parts, '.');
    ComponentsOf(parts, r);
  }

  lemma {:induction false} JoinEnds(parts: seq<string>)
    requires |parts| >= 1
    requires forall i :: 0 <= i < |parts| ==> IsDigits(parts[i])
    ensures var s := Join(parts, ".");
      s != [] && parts[0] != [] && parts[|parts| - 1] != [] && s[0] == parts[0][0] && s[|s| - 1] == parts[|parts| - 1][|parts[|parts| - 1]| - 1]
  {
    if |parts| > 1 {
      JoinEnds(parts[1..]);
    }
  }

  lemma {:induction false} ComponentsOf(parts: seq<string>, r: Release)
    requires |parts| == |r|
    requires forall i :: 0 <= i < |parts| ==> IsDigits(parts[i]) && DigitsValue(parts[i]) == r[i]
    ensures Components(parts) == Some(r)
  {
    if parts != [] {
      ComponentsOf(parts[1..], r[1..]);
      assert [r[0]] + r[1..] == r;
    }
  }

  lemma ParseExamplesNewer()
    ensures ParseVersion("2.0.0") == Some([2, 0, 0])
    ensures ParseVersion("1.9.9") == Some([1, 9, 9])
  {
    assert Join(["0"], ".") == "0";
    assert Join(["0", "0"], ".") == "0.0";
    assert Join(["2", "0", "0"], ".") == "2.0.0";
    ParseDotted(["2", "0", "0"], [2, 0, 0]);
    assert Join(["9"], ".") == "9";
    assert Join(["9", "9"], ".") == "9.9";
    assert Join(["1", "9", "9"], ".") == "1.9.9";
    ParseDotted(["1", "9", "9"], [1, 9, 9]);
  }

  lemma ParseExamplesPadded()
    ensures ParseVersion("1.0") == Some([1, 0])
    ensures ParseVersion("1.0.0") == Some([1, 0, 0])
  {
    assert Join(["0"], ".") == "0";
    assert Join(["1", "0"], ".") == "1.0";
    ParseDotted(["1", "0"], [1, 0]);
    assert Join(["0", "0"], ".") == "0.0";
    assert Join(["1", "0", "0"], ".") == "1.0.0";
    ParseDotted(["1", "0", "0"], [1, 0, 0]);
  }

  lemma ParseExampleInvalid()
    ensures ParseVersion("abc") == None
  {
    StripUnpadded("abc");
    SplitNoSeparator("abc", '.');
  }

  /** Three verdicts: "2.0.0" replaces "1.9.9"; "1.0.0" does not replace "1.0" (the two
      are equal); "abc" is not a version. */
  lemma CheckHigherExamples()
    ensures CheckHigher(Some("1.9.9"), "2.0.0") == Higher
    ensures CheckHigher(Some("1.0"), "1.0.0") == NotHigher
    ensures CheckHigher(Some("1.0"), "abc") == Unparseable
  {
    NewerExample();
    PaddedExample();
    InvalidExample();
  }

  lemma NewerExample()
    ensures CheckHigher(Some("1.9.9"), "2.0.0") == Higher
  {
    ParseExamplesNewer();
    assert Compare([2, 0, 0], [1, 9, 9]) == 1;
  }

  lemma PaddedExample()
    ensures CheckHigher(Some("1.0"), "1.0.0") == NotHigher
  {
    ParseExamplesPadded();
    assert Compare([1, 0, 0], [1, 0]) == 0 by {
      assert Tail([1, 0, 0]) == [0, 0] && Tail([1, 0]) == [0];
      assert Tail([0, 0]) == [0] && Tail([0]) == [];
    }
  }

  lemma InvalidExample()
    ensures CheckHigher(Some("1.0"), "abc") == Unparseable
  {
    ParseExamplesPadded();
    ParseExampleInvalid();
  }
}
