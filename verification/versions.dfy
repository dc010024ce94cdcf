/** Version comparison (`compare_versions` in updater.py).

    A version string is normalised to a sequence of naturals: surrounding
    white space is stripped, the rest is split on '.', and every segment that
    is all decimal digits becomes its value while any other segment becomes 0.
    Two normalised versions are compared after the shorter one is padded on
    the right with zeros, and the first component that differs decides.

    The reference meaning used in the contracts is independent of padding:
    a normalised version denotes the infinite sequence of its components
    followed by zeros (`Component`), and comparison is the lexicographic
    order on those infinite sequences (`Exceeds`, `SameVersion`). */
module Versions {
  import opened Strings

  /* ---------------------------------------------------------------------
     Normalisation
     --------------------------------------------------------------------- */

  /** One segment: its decimal value when it is all digits, else 0. */
  function ParseSegment(part: string): nat {
    if IsDecimal(part) then DecimalValue(part) else 0
  }

  /** The segments of a version string, before they are parsed. */
  function Segments(version: string): (segs: seq<string>)
    ensures |segs| >= 1
  {
    Split(Strip(version), '.')
  }

  /** `normalize_version`: one component per segment. */
  function Normalize(version: string): (parts: seq<nat>)
    ensures |parts| == |Segments(version)| >= 1
    ensures forall i :: 0 <= i < |parts| && !IsDecimal(Segments(version)[i]) ==> parts[i] == 0
    ensures forall i :: 0 <= i < |parts| && IsDecimal(Segments(version)[i]) ==> parts[i] == DecimalValue(Segments(version)[i])
  {
    var segs := Segments(version);
    seq(|segs|, i requires 0 <= i < |segs| => ParseSegment(segs[i]))
  }

  /** The canonical spelling of a component sequence, e.g. [1, 2, 0] as "1.2.0". */
  function Render(parts: seq<nat>): string
    requires |parts| >= 1
  {
    Join(seq(|parts|, i requires 0 <= i < |parts| => DecimalString(parts[i])), '.')
  }

  lemma DigitIsNotSpace(c: char)
    requires IsDigit(c)
    ensures !IsSpace(c)
  {
  }

  /** The first character of a join is the first character of its first part,
      and its last character the last character of its last part. */
  lemma {:induction false} JoinEnds(parts: seq<string>, sep: char)
    requires |parts| >= 1
    requires forall i :: 0 <= i < |parts| ==> |parts[i]| > 0
    ensures |Join(parts, sep)| > 0
    ensures Join(parts, sep)[0] == parts[0][0]
    ensures Join(parts, sep)[|Join(parts, sep)| - 1] == parts[|parts| - 1][|parts[|parts| - 1]| - 1]
    decreases |parts|
  {
    if |parts| > 1 {
      JoinEnds(parts[1..], sep);
    }
  }

  /** A dotted string whose ends are not white space normalises piece by piece. */
  lemma NormalizeJoin(pieces: seq<string>, v: string)
    requires |pieces| >= 1
    requires forall i :: 0 <= i < |pieces| ==> |pieces[i]| > 0 && '.' !in pieces[i]
    requires !IsSpace(pieces[0][0]) && !IsSpace(pieces[|pieces| - 1][|pieces[|pieces| - 1]| - 1])
    requires v == Join(pieces, '.')
    ensures Normalize(v) == seq(|pieces|, i requires 0 <= i < |pieces| => ParseSegment(pieces[i]))
  {
    JoinEnds(pieces, '.');
    assert Strip(v) == v;
    SplitJoin(pieces, '.');
    assert Segments(v) == pieces;
  }

  /** Normalisation undoes rendering: parsing "1.2.0" gives back [1, 2, 0]. */
  lemma NormalizeRender(parts: seq<nat>)
    requires |parts| >= 1
    ensures Normalize(Render(parts)) == parts
  {
    var pieces := seq(|parts|, i requires 0 <= i < |parts| => DecimalString(parts[i]));
    forall i | 0 <= i < |pieces| ensures '.' !in pieces[i] {
      assert IsDecimal(pieces[i]);
      assert !IsDigit('.');
    }
    DigitIsNotSpace(pieces[0][0]);
    DigitIsNotSpace(pieces[|pieces| - 1][|pieces[|pieces| - 1]| - 1]);
    NormalizeJoin(pieces, Render(parts));
  }

  /* ---------------------------------------------------------------------
     The reference order on zero-extended component sequences
     --------------------------------------------------------------------- */

  /** Component `i` of a version, reading missing trailing components as 0. */
  function Component(a: seq<nat>, i: nat): nat {
    if i < |a| then a[i] else 0
  }

  /** The versions agree on every component before position `k`. */
  ghost predicate AgreeBelow(a: seq<nat>, b: seq<nat>, k: nat) {
    forall i: nat :: i < k ==> Component(a, i) == Component(b, i)
  }

  /** `a` is a later version than `b`: at the first position where they
      differ, `a` has the larger component. */
  ghost predicate Exceeds(a: seq<nat>, b: seq<nat>) {
    exists k: nat :: AgreeBelow(a, b, k) && Component(a, k) > Component(b, k)
  }

  /** `a` and `b` denote the same version (they differ at most in trailing zeros). */
  ghost predicate SameVersion(a: seq<nat>, b: seq<nat>) {
    forall i: nat :: Component(a, i) == Component(b, i)
  }

  /** Versions that denote the same components compare alike with everything. */
  lemma SameVersionCongruent(a: seq<nat>, a': seq<nat>, b: seq<nat>, b': seq<nat>)
    requires SameVersion(a, a') && SameVersion(b, b')
    ensures Exceeds(a, b) <==> Exceeds(a', b')
    ensures SameVersion(a, b) <==> SameVersion(a', b')
  {
    if Exceeds(a, b) {
      var k: nat :| AgreeBelow(a, b, k) && Component(a, k) > Component(b, k);
      assert AgreeBelow(a', b', k);
    }
    if Exceeds(a', b') {
      var k: nat :| AgreeBelow(a', b', k) && Component(a', k) > Component(b', k);
      assert AgreeBelow(a, b, k);
    }
  }

  /** Dropping an equal first component keeps the order. */
  lemma ExceedsTail(a: seq<nat>, b: seq<nat>)
    requires |a| > 0 && |b| > 0 && a[0] == b[0]
    ensures Exceeds(a, b) <==> Exceeds(a[1..], b[1..])
  {
    forall i: nat ensures Component(a[1..], i) == Component(a, i + 1) && Component(b[1..], i) == Component(b, i + 1) {
    }
    if Exceeds(a, b) {
      var k: nat :| AgreeBelow(a, b, k) && Component(a, k) > Component(b, k);
      assert k != 0;
      assert AgreeBelow(a[1..], b[1..], k - 1) by {
        forall i: nat | i < k - 1 ensures Component(a[1..], i) == Component(b[1..], i) {
          assert Component(a, i + 1) == Component(b, i + 1);
        }
      }
      assert Component(a[1..], k - 1) > Component(b[1..], k - 1);
    }
    if Exceeds(a[1..], b[1..]) {
      var k: nat :| AgreeBelow(a[1..], b[1..], k) && Component(a[1..], k) > Component(b[1..], k);
      assert AgreeBelow(a, b, k + 1) by {
        forall i: nat | i < k + 1 ensures Component(a, i) == Component(b, i) {
          if i > 0 {
            assert Component(a[1..], i - 1) == Component(b[1..], i - 1);
          }
        }
      }
      assert Component(a, k + 1) > Component(b, k + 1);
    }
  }

  /** A smaller first component rules out being the later version. */
  lemma NotExceedsWhenFirstSmaller(a: seq<nat>, b: seq<nat>)
    requires Component(a, 0) < Component(b, 0)
    ensures !Exceeds(a, b)
  {
  }

  /* ---------------------------------------------------------------------
     The comparison as the source computes it
     --------------------------------------------------------------------- */

  /** `v += [0] * (n - len(v))`: right-pad with zeros to length `n`. The
      padded version denotes the same components. */
  function Pad(a: seq<nat>, n: nat): (r: seq<nat>)
    requires |a| <= n
    ensures |r| == n
    ensures r[..|a|] == a
    ensures forall i :: |a| <= i < n ==> r[i] == 0
    ensures SameVersion(r, a)
  {
    a + seq(n - |a|, _ => 0)
  }

  /** The `for p1, p2 in zip(...)` loop over equal-length sequences: 1 or -1
      at the first differing pair, 0 when there is none. */
  function Lex(a: seq<nat>, b: seq<nat>): (r: int)
    requires |a| == |b|
    ensures r == -1 || r == 0 || r == 1
    ensures r == 0 <==> a == b
    decreases |a|
  {
    if |a| == 0 then 0
    else if a[0] > b[0] then 1
    else if a[0] < b[0] then -1
    else
      var r := Lex(a[1..], b[1..]);
      assert a == [a[0]] + a[1..] && b == [b[0]] + b[1..];
      r
  }

  /** The loop decides by the first differing component. */
  lemma {:induction false} LexSpec(a: seq<nat>, b: seq<nat>)
    requires |a| == |b|
    ensures Lex(a, b) == 1 <==> Exceeds(a, b)
    ensures Lex(a, b) == -1 <==> Exceeds(b, a)
    decreases |a|
  {
    if |a| == 0 {
      assert !Exceeds(a, b) && !Exceeds(b, a);
    } else if a[0] > b[0] {
      assert AgreeBelow(a, b, 0) && Component(a, 0) > Component(b, 0);
      NotExceedsWhenFirstSmaller(b, a);
    } else if a[0] < b[0] {
      assert AgreeBelow(b, a, 0) && Component(b, 0) > Component(a, 0);
      NotExceedsWhenFirstSmaller(a, b);
    } else {
      LexSpec(a[1..], b[1..]);
      ExceedsTail(a, b);
      ExceedsTail(b, a);
    }
  }

  /** Equal-length sequences denote the same version exactly when they are equal. */
  lemma SameVersionSameLength(a: seq<nat>, b: seq<nat>)
    requires |a| == |b|
    ensures SameVersion(a, b) <==> a == b
  {
    if SameVersion(a, b) {
      forall i | 0 <= i < |a| ensures a[i] == b[i] {
        assert Component(a, i) == Component(b, i);
      }
    }
  }

  /** Lines 51-60: pad both to the longer length, then scan. The result is
      one of -1, 0, 1 and agrees with the reference order. */
  function CompareParts(a: seq<nat>, b: seq<nat>): (r: int)
    ensures r == -1 || r == 0 || r == 1
    ensures r == 0 <==> SameVersion(a, b)
    ensures r == 1 <==> Exceeds(a, b)
    ensures r == -1 <==> Exceeds(b, a)
  {
    var n := if |a| < |b| then |b| else |a|;
    var pa := Pad(a, n);
    var pb := Pad(b, n);
    LexSpec(pa, pb);
    SameVersionCongruent(pa, a, pb, b);
    SameVersionCongruent(pb, b, pa, a);
    SameVersionSameLength(pa, pb);
    Lex(pa, pb)
  }

  /** `v1` normalises to a later version than `v2`. */
  ghost predicate Newer(v1: string, v2: string) {
    Exceeds(Normalize(v1), Normalize(v2))
  }

  /** `v1` and `v2` normalise to the same version. */
  ghost predicate Equivalent(v1: string, v2: string) {
    SameVersion(Normalize(v1), Normalize(v2))
  }

  /** `compare_versions(v1, v2)`: 1 when `v1` is newer, -1 when `v2` is newer,
      0 when they denote the same version. The source raises instead on a
      version that is not a string, and `int` may raise on a segment that
      `isdigit` accepts; neither is modelled here. */
  function Compare(v1: string, v2: string): (r: int)
    ensures r == -1 || r == 0 || r == 1
    ensures r == 1 <==> Newer(v1, v2)
    ensures r == -1 <==> Newer(v2, v1)
    ensures r == 0 <==> Equivalent(v1, v2)
  {
    CompareParts(Normalize(v1), Normalize(v2))
  }

  /* ---------------------------------------------------------------------
     Order properties
     --------------------------------------------------------------------- */

  lemma CompareReflexive(v: string)
    ensures Compare(v, v) == 0
  {
  }

  lemma CompareAntisymmetric(v1: string, v2: string)
    ensures Compare(v1, v2) == -Compare(v2, v1)
  {
  }

  /** The reference order is transitive. */
  lemma ExceedsTransitive(a: seq<nat>, b: seq<nat>, c: seq<nat>)
    requires Exceeds(a, b) && Exceeds(b, c)
    ensures Exceeds(a, c)
  {
    var k1: nat :| AgreeBelow(a, b, k1) && Component(a, k1) > Component(b, k1);
    var k2: nat :| AgreeBelow(b, c, k2) && Component(b, k2) > Component(c, k2);
    var k := if k1 < k2 then k1 else k2;
    assert AgreeBelow(a, c, k) by {
      forall i: nat | i < k ensures Component(a, i) == Component(c, i) {
        assert Component(a, i) == Component(b, i);
      }
    }
    if k1 < k2 {
      assert Component(b, k1) == Component(c, k1);
    } else if k2 < k1 {
      assert Component(a, k2) == Component(b, k2);
    }
    assert Component(a, k) > Component(c, k);
  }

  lemma CompareTransitive(v1: string, v2: string, v3: string)
    ensures Compare(v1, v2) == 1 && Compare(v2, v3) == 1 ==> Compare(v1, v3) == 1
  {
    if Compare(v1, v2) == 1 && Compare(v2, v3) == 1 {
      ExceedsTransitive(Normalize(v1), Normalize(v2), Normalize(v3));
    }
  }

  /** Versions that compare equal are interchangeable in every comparison. */
  lemma CompareEqualSubstitutes(v1: string, v2: string, w: string)
    requires Compare(v1, v2) == 0
    ensures Compare(v1, w) == Compare(v2, w)
  {
    var a, b, c := Normalize(v1), Normalize(v2), Normalize(w);
    assert SameVersion(c, c);
    SameVersionCongruent(a, b, c, c);
    SameVersionCongruent(c, c, a, b);
  }

  /** No version is older than "0.0.0". */
  lemma ZeroIsOldest(v: string)
    ensures !Newer("0.0.0", v)
  {
    Spells000();
    NothingBelowZeros(Normalize(v));
  }

  /** Zero components are never the later version. */
  lemma NothingBelowZeros(b: seq<nat>)
    ensures !Exceeds([0, 0, 0], b)
  {
    forall k: nat ensures Component([0, 0, 0], k) <= Component(b, k) {
    }
  }

  /** A version newer than any version is newer than "0.0.0". */
  lemma NewerThanZero(v1: string, v2: string)
    ensures Newer(v1, v2) ==> Newer(v1, "0.0.0")
  {
    if Newer(v1, v2) {
      var a, b, z := Normalize(v1), Normalize(v2), Normalize("0.0.0");
      ZeroIsOldest(v2);
      if Exceeds(b, z) {
        ExceedsTransitive(a, b, z);
      } else {
        assert CompareParts(b, z) == 0;
        assert SameVersion(a, a);
        SameVersionCongruent(a, a, b, z);
      }
    }
  }

  /** A version with no all-digit segment, including the empty string and
      garbage text, compares equal to "0.0.0". */
  lemma NonNumericIsZero(v: string)
    requires forall i :: 0 <= i < |Segments(v)| ==> !IsDecimal(Segments(v)[i])
    ensures Compare(v, "0.0.0") == 0
  {
    var a := Normalize(v);
    assert forall i :: 0 <= i < |a| ==> a[i] == 0;
    AllZeroIsZero(a);
    Spells000();
  }

  /** Only zero components: the same version as "0.0.0". */
  lemma AllZeroIsZero(a: seq<nat>)
    requires forall i :: 0 <= i < |a| ==> a[i] == 0
    ensures SameVersion(a, [0, 0, 0])
  {
    forall i: nat ensures Component(a, i) == Component([0, 0, 0], i) {
    }
  }

  /* ---------------------------------------------------------------------
     Worked examples
     --------------------------------------------------------------------- */

  /* Normalisations of the literal versions the examples use, one per
     lemma so that each literal is evaluated on its own, apart from the
     order facts. */

  lemma Spells000()
    ensures Normalize("0.0.0") == [0, 0, 0]
  {
  }

  lemma Spells100()
    ensures Normalize("1.0.0") == [1, 0, 0]
  {
  }

  lemma Spells12()
    ensures Normalize("1.2") == [1, 2]
  {
  }

  lemma Spells120()
    ensures Normalize("1.2.0") == [1, 2, 0]
  {
  }

  lemma Spells200()
    ensures Normalize("2.0.0") == [2, 0, 0]
  {
  }

  lemma Spells199()
    ensures Normalize("1.9.9") == [1, 9, 9]
  {
  }

  lemma Spells10()
    ensures Normalize("1.0") == [1, 0]
  {
  }

  lemma Spells101()
    ensures Normalize("1.0.1") == [1, 0, 1]
  {
  }

  lemma Spells110()
    ensures Normalize("1.1.0") == [1, 1, 0]
  {
  }

  lemma Spells150()
    ensures Normalize("1.5.0") == [1, 5, 0]
  {
  }

  lemma Spells1x0()
    ensures Normalize("1.x.0") == [1, 0, 0]
  {
  }

  /* The worked examples are stated in terms of the reference order, which
     `Compare` agrees with. Each one only combines the normal forms of its
     literals with facts about component sequences proved apart from them. */

  /** Missing trailing components count as zeros: "1.2" and "1.2.0" compare
      as 0. */
  lemma ShorterEqualsPadded()
    ensures Equivalent("1.2", "1.2.0")
  {
    Spells12();
    Spells120();
    ExampleOrders();
    EquivalentByNormalForms("1.2", "1.2.0", [1, 2], [1, 2, 0]);
  }

  /** A non-numeric segment counts as zero: "1.x.0" and "1.0.0" compare as 0. */
  lemma NonNumericSegmentIsZero()
    ensures Equivalent("1.x.0", "1.0.0")
  {
    Spells1x0();
    Spells100();
    ExampleOrders();
    EquivalentByNormalForms("1.x.0", "1.0.0", [1, 0, 0], [1, 0, 0]);
  }

  /** The first differing component decides, whatever follows it: "2.0.0"
      against "1.9.9" compares as 1. */
  lemma FirstComponentDecides()
    ensures Newer("2.0.0", "1.9.9") && !Newer("1.9.9", "2.0.0")
  {
    Spells200();
    Spells199();
    ExampleOrders();
    NewerByNormalForms("2.0.0", "1.9.9", [2, 0, 0], [1, 9, 9]);
  }

  /** An extra non-zero component makes a version newer: "1.0" against
      "1.0.1" compares as -1. */
  lemma ExtraComponentDecides()
    ensures Newer("1.0.1", "1.0") && !Newer("1.0", "1.0.1")
  {
    Spells10();
    Spells101();
    ExampleOrders();
    NewerByNormalForms("1.0.1", "1.0", [1, 0, 1], [1, 0]);
  }

  /** A minor release is newer than the release before it. */
  lemma MinorReleaseIsNewer()
    ensures Newer("1.1.0", "1.0.0") && !Newer("1.0.0", "1.1.0")
  {
    Spells110();
    Spells100();
    ExampleOrders();
    NewerByNormalForms("1.1.0", "1.0.0", [1, 1, 0], [1, 0, 0]);
  }

  /** An older major release is older, whatever its minor component. */
  lemma OlderMajorIsOlder()
    ensures Newer("2.0.0", "1.5.0") && !Newer("1.5.0", "2.0.0")
  {
    Spells150();
    Spells200();
    ExampleOrders();
    NewerByNormalForms("2.0.0", "1.5.0", [2, 0, 0], [1, 5, 0]);
  }

  /** The order facts about the normal forms of the examples above. */
  lemma ExampleOrders()
    ensures SameVersion([1, 2], [1, 2, 0]) && SameVersion([1, 0, 0], [1, 0, 0])
    ensures Exceeds([2, 0, 0], [1, 9, 9]) && !Exceeds([1, 9, 9], [2, 0, 0])
    ensures Exceeds([1, 0, 1], [1, 0]) && !Exceeds([1, 0], [1, 0, 1])
    ensures Exceeds([1, 1, 0], [1, 0, 0]) && !Exceeds([1, 0, 0], [1, 1, 0])
    ensures Exceeds([2, 0, 0], [1, 5, 0]) && !Exceeds([1, 5, 0], [2, 0, 0])
  {
    PaddedIsSame([1, 2], [1, 2, 0]);
    PaddedIsSame([1, 0, 0], [1, 0, 0]);
    FirstDifferenceDecides([2, 0, 0], [1, 9, 9], 0);
    FirstDifferenceDecides([1, 0, 1], [1, 0], 2);
    FirstDifferenceDecides([1, 1, 0], [1, 0, 0], 1);
    FirstDifferenceDecides([2, 0, 0], [1, 5, 0], 0);
  }

  /** Versions whose normal forms denote the same version are equivalent. */
  lemma EquivalentByNormalForms(v1: string, v2: string, a: seq<nat>, b: seq<nat>)
    ensures Normalize(v1) == a && Normalize(v2) == b && SameVersion(a, b) ==> Equivalent(v1, v2)
  {
  }

  /** A version whose normal form is the later one is newer, and not the
      other way round. */
  lemma NewerByNormalForms(v1: string, v2: string, a: seq<nat>, b: seq<nat>)
    ensures Normalize(v1) == a && Normalize(v2) == b && Exceeds(a, b) && !Exceeds(b, a) ==>
      Newer(v1, v2) && !Newer(v2, v1)
  {
  }

  /** A sequence and its extension by zeros denote the same version. */
  lemma PaddedIsSame(a: seq<nat>, b: seq<nat>)
    requires |a| <= |b| && b[..|a|] == a
    requires forall i :: |a| <= i < |b| ==> b[i] == 0
    ensures SameVersion(a, b) && SameVersion(b, a)
  {
    forall i: nat ensures Component(a, i) == Component(b, i) {
      if i < |a| {
        assert b[i] == b[..|a|][i];
      }
    }
  }

  /** When two sequences agree on the components before `k` and the first
      has the larger component at `k`, the first is the later version and
      not the other way round, whatever follows. */
  lemma FirstDifferenceDecides(a: seq<nat>, b: seq<nat>, k: nat)
    requires forall i :: 0 <= i < k ==> Component(a, i) == Component(b, i)
    requires Component(a, k) > Component(b, k)
    ensures Exceeds(a, b) && !Exceeds(b, a)
  {
    assert AgreeBelow(a, b, k);
    forall j: nat ensures !(AgreeBelow(b, a, j) && Component(b, j) > Component(a, j)) {
      if j < k {
        assert Component(a, j) == Component(b, j);
      } else if j > k {
        assert k < j && Component(b, k) != Component(a, k);
      }
    }
  }
}
