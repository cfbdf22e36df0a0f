/** The two copies of `compareVersion` (Main.java and CsvPreprocessor.java) and the order
    they define. A version string loses a leading `v` or `release-`, is split at dots, and
    its parts are compared as integers from left to right, a missing part reading as 0. */
module Versions {
  import opened Strings
  import Sorting

  /** `replaceFirst("^(?:v|release-)", "")` */
  function StripPrefix(s: string): (r: string)
    ensures StartsWith(s, "v") ==> r == s[1..]
    ensures !StartsWith(s, "v") && StartsWith(s, "release-") ==> r == s[8..]
    ensures !StartsWith(s, "v") && !StartsWith(s, "release-") ==> r == s
  {
    if StartsWith(s, "v") then s[1..]
    else if StartsWith(s, "release-") then s[8..]
    else s
  }

  predicate IsDigit(c: char) { '0' <= c <= '9' }

  predicate AllDigits(s: string) {
    forall i :: 0 <= i < |s| ==> IsDigit(s[i])
  }

  /** Text `Integer.parseInt` accepts: an optional sign followed by at least one digit
      (overflow aside). */
  predicate IsIntegerText(p: string) {
    || (|p| >= 1 && AllDigits(p))
    || (|p| >= 2 && (p[0] == '-' || p[0] == '+') && AllDigits(p[1..]))
  }

  function DigitsValue(s: string): nat {
    if s == [] then 0
    else
      var c := s[|s| - 1];
      DigitsValue(s[..|s| - 1]) * 10 + (if IsDigit(c) then c as int - '0' as int else 0)
  }

  /** `Integer.parseInt` on text accepted by `IsIntegerText`. */
  function ParseInt(p: string): int {
    if p != [] && p[0] == '-' then 0 - DigitsValue(p[1..])
    else if p != [] && p[0] == '+' then DigitsValue(p[1..])
    else DigitsValue(p)
  }

  /** The parts `split("\\.")` yields after the prefix is stripped. */
  function Parts(v: string): seq<string> {
    JavaSplit(StripPrefix(v), '.')
  }

  /** A version every part of which parses as an integer, so `compareVersion` does not throw. */
  predicate NumericVersion(v: string) {
    forall p :: p in Parts(v) ==> IsIntegerText(p)
  }

  /** `HEAD`, or a version that `compareVersion` parses: what a CSV's Version column holds. */
  predicate HeadOrNumeric(v: string) {
    v == "HEAD" || NumericVersion(v)
  }

  function Components(v: string): (r: seq<int>)
    ensures |r| == |Parts(v)|
  {
    var ps := Parts(v);
    seq(|ps|, i requires 0 <= i < |ps| => ParseInt(ps[i]))
  }

  lemma ComponentAt(v: string, i: nat)
    requires i < |Parts(v)|
    ensures Components(v)[i] == ParseInt(Parts(v)[i])
  {
  }

  /** The `i`-th component, 0 beyond the end. */
  function Pad(p: seq<int>, i: nat): int {
    if i < |p| then p[i] else 0
  }

  function Sign(x: int): int {
    if x < 0 then -1 else if x > 0 then 1 else 0
  }

  /** The loop of `compareVersion` from index `i` on. */
  function CompareFrom(pa: seq<int>, pb: seq<int>, i: nat): int
    decreases |pa| + |pb| - i
  {
    if i >= |pa| && i >= |pb| then 0
    else if Pad(pa, i) != Pad(pb, i) then Sign(Pad(pa, i) - Pad(pb, i))
    else CompareFrom(pa, pb, i + 1)
  }

  /** `compareVersion` of Main.java: defined on any strings, meaningful on numeric ones. */
  function NumericCompare(a: string, b: string): int {
    CompareFrom(Components(a), Components(b), 0)
  }

  /** `compareVersion` of CsvPreprocessor.java: `HEAD` is below every other version. */
  function HeadCompare(a: string, b: string): int {
    if a == "HEAD" && b != "HEAD" then -1
    else if a != "HEAD" && b == "HEAD" then 1
    else if a == "HEAD" && b == "HEAD" then 0
    else NumericCompare(a, b)
  }

  /** The comparator passed to `Collections.sort` in Main.java. */
  function VersionLe(a: string, b: string): bool {
    NumericCompare(a, b) <= 0
  }

  // ----- the index loop, as both Java copies write it -----

  /** The loop of `compareVersion` over the split parts: it stops at the first position
      where the parsed parts (0 beyond either end) differ. */
  method CompareParts(pa: seq<string>, pb: seq<string>, ghost ca: seq<int>, ghost cb: seq<int>) returns (c: int)
    requires |ca| == |pa| && forall i :: 0 <= i < |pa| ==> ca[i] == ParseInt(pa[i])
    requires |cb| == |pb| && forall i :: 0 <= i < |pb| ==> cb[i] == ParseInt(pb[i])
    ensures c == CompareFrom(ca, cb, 0)
  {
    var n := if |pa| > |pb| then |pa| else |pb|;
    var i := 0;
    while i < n
      invariant 0 <= i <= n
      invariant CompareFrom(ca, cb, i) == CompareFrom(ca, cb, 0)
    {
      var va := if i < |pa| then ParseInt(pa[i]) else 0;
      var vb := if i < |pb| then ParseInt(pb[i]) else 0;
      assert va == Pad(ca, i) && vb == Pad(cb, i);
      CompareFromUnfold(ca, cb, i);
      if va != vb {
        return if va < vb then -1 else 1;
      }
      i := i + 1;
    }
    c := 0;
  }

  /** Main.java's `compareVersion`: the parts of both versions, compared as integers. */
  method CompareNumeric(a: string, b: string) returns (c: int)
    requires NumericVersion(a) && NumericVersion(b)
    ensures c == NumericCompare(a, b)
    ensures c == -1 || c == 0 || c == 1
  {
    var pa := Parts(a);
    var pb := Parts(b);
    forall i | 0 <= i < |pa| ensures Components(a)[i] == ParseInt(pa[i]) {
      ComponentAt(a, i);
    }
    forall i | 0 <= i < |pb| ensures Components(b)[i] == ParseInt(pb[i]) {
      ComponentAt(b, i);
    }
    c := CompareParts(pa, pb, Components(a), Components(b));
    CompareMeaning(Components(a), Components(b));
  }

  /** CsvPreprocessor.java's `compareVersion`: the `HEAD` cases, then the same loop. */
  method CompareWithHead(a: string, b: string) returns (c: int)
    requires HeadOrNumeric(a) && HeadOrNumeric(b)
    ensures c == HeadCompare(a, b)
    ensures a == "HEAD" && b != "HEAD" ==> c < 0
    ensures a == "HEAD" && b == "HEAD" ==> c == 0
  {
    if a == "HEAD" && b != "HEAD" { return -1; }
    if a != "HEAD" && b == "HEAD" { return 1; }
    if a == "HEAD" && b == "HEAD" { return 0; }
    c := CompareNumeric(a, b);
  }

  // ----- what the comparison means -----

  /** Components before `k` agree and component `k` differs. */
  ghost predicate FirstDifference(pa: seq<int>, pb: seq<int>, k: nat) {
    Pad(pa, k) != Pad(pb, k) && forall j :: 0 <= j < k ==> Pad(pa, j) == Pad(pb, j)
  }

  lemma {:induction false} PadBeyond(p: seq<int>, i: nat)
    requires i >= |p|
    ensures Pad(p, i) == 0
  {
  }

  /** One step of the loop, valid at every index (past both ends every component is 0). */
  lemma CompareFromUnfold(pa: seq<int>, pb: seq<int>, i: nat)
    ensures CompareFrom(pa, pb, i)
         == if Pad(pa, i) != Pad(pb, i) then Sign(Pad(pa, i) - Pad(pb, i)) else CompareFrom(pa, pb, i + 1)
  {
  }

  lemma {:induction false} CompareFromZero(pa: seq<int>, pb: seq<int>, i: nat)
    ensures CompareFrom(pa, pb, i) == 0 <==> forall j: nat :: j >= i ==> Pad(pa, j) == Pad(pb, j)
    decreases |pa| + |pb| - i
  {
    if i >= |pa| && i >= |pb| {
    } else if Pad(pa, i) != Pad(pb, i) {
    } else {
      CompareFromZero(pa, pb, i + 1);
      if CompareFrom(pa, pb, i + 1) == 0 {
        forall j: nat | j >= i ensures Pad(pa, j) == Pad(pb, j) {
          if j > i { }
        }
      }
    }
  }

  lemma {:induction false} CompareFromNegative(pa: seq<int>, pb: seq<int>, i: nat)
    requires forall j :: 0 <= j < i ==> Pad(pa, j) == Pad(pb, j)
    ensures CompareFrom(pa, pb, i) < 0 <==> exists k: nat :: FirstDifference(pa, pb, k) && Pad(pa, k) < Pad(pb, k)
    ensures CompareFrom(pa, pb, i) == -1 || CompareFrom(pa, pb, i) == 0 || CompareFrom(pa, pb, i) == 1
    decreases |pa| + |pb| - i
  {
    if i >= |pa| && i >= |pb| {
      forall k: nat ensures Pad(pa, k) == Pad(pb, k) {
        if k >= i {
          PadBeyond(pa, k);
          PadBeyond(pb, k);
        }
      }
    } else if Pad(pa, i) != Pad(pb, i) {
      assert FirstDifference(pa, pb, i);
      if exists k: nat :: FirstDifference(pa, pb, k) && Pad(pa, k) < Pad(pb, k) {
        var k: nat :| FirstDifference(pa, pb, k) && Pad(pa, k) < Pad(pb, k);
        assert k == i;
      }
    } else {
      CompareFromNegative(pa, pb, i + 1);
    }
  }

  /** The result is -1, 0 or 1; it is 0 iff all padded components agree and negative iff
      the first differing component of `pa` is the smaller. */
  lemma CompareMeaning(pa: seq<int>, pb: seq<int>)
    ensures CompareFrom(pa, pb, 0) == -1 || CompareFrom(pa, pb, 0) == 0 || CompareFrom(pa, pb, 0) == 1
    ensures CompareFrom(pa, pb, 0) == 0 <==> forall i: nat :: Pad(pa, i) == Pad(pb, i)
    ensures CompareFrom(pa, pb, 0) < 0 <==> exists k: nat :: FirstDifference(pa, pb, k) && Pad(pa, k) < Pad(pb, k)
  {
    CompareFromZero(pa, pb, 0);
    CompareFromNegative(pa, pb, 0);
  }

  lemma {:induction false} CompareFromAntisymmetric(pa: seq<int>, pb: seq<int>, i: nat)
    ensures CompareFrom(pa, pb, i) == -CompareFrom(pb, pa, i)
    decreases |pa| + |pb| - i
  {
    if !(i >= |pa| && i >= |pb|) && Pad(pa, i) == Pad(pb, i) {
      CompareFromAntisymmetric(pa, pb, i + 1);
    }
  }

  lemma {:induction false} CompareFromTransitive(pa: seq<int>, pb: seq<int>, pc: seq<int>, i: nat)
    requires CompareFrom(pa, pb, i) <= 0 && CompareFrom(pb, pc, i) <= 0
    ensures CompareFrom(pa, pc, i) <= 0
    ensures CompareFrom(pa, pb, i) < 0 || CompareFrom(pb, pc, i) < 0 ==> CompareFrom(pa, pc, i) < 0
    decreases |pa| + |pb| + |pc| - i
  {
    CompareFromUnfold(pa, pb, i);
    CompareFromUnfold(pb, pc, i);
    CompareFromUnfold(pa, pc, i);
    if i >= |pa| && i >= |pb| && i >= |pc| {
    } else if Pad(pa, i) == Pad(pb, i) && Pad(pb, i) == Pad(pc, i) {
      CompareFromTransitive(pa, pb, pc, i + 1);
    }
  }

  // ----- the order on version strings -----

  lemma NumericCompareReflexive(a: string)
    ensures NumericCompare(a, a) == 0
  {
    CompareFromZero(Components(a), Components(a), 0);
  }

  lemma NumericCompareAntisymmetric(a: string, b: string)
    ensures NumericCompare(a, b) == -NumericCompare(b, a)
  {
    CompareFromAntisymmetric(Components(a), Components(b), 0);
  }

  lemma NumericCompareTransitive(a: string, b: string, c: string)
    requires NumericCompare(a, b) <= 0 && NumericCompare(b, c) <= 0
    ensures NumericCompare(a, c) <= 0
    ensures NumericCompare(a, b) < 0 || NumericCompare(b, c) < 0 ==> NumericCompare(a, c) < 0
  {
    CompareFromTransitive(Components(a), Components(b), Components(c), 0);
  }

  /** The comparator Main.java sorts the tags with is a total preorder. */
  lemma VersionLeTotalPreorder()
    ensures Sorting.TotalPreorder(VersionLe)
  {
    forall a, b ensures VersionLe(a, b) || VersionLe(b, a) {
      NumericCompareAntisymmetric(a, b);
    }
    forall a, b, c | VersionLe(a, b) && VersionLe(b, c) ensures VersionLe(a, c) {
      NumericCompareTransitive(a, b, c);
    }
  }

  lemma HeadCompareReflexive(a: string)
    ensures HeadCompare(a, a) == 0
  {
    NumericCompareReflexive(a);
  }

  lemma HeadCompareAntisymmetric(a: string, b: string)
    ensures HeadCompare(a, b) == -HeadCompare(b, a)
  {
    NumericCompareAntisymmetric(a, b);
  }

  /** The CSV comparison is transitive, strictly so when one step is strict. */
  lemma HeadCompareTransitive(a: string, b: string, c: string)
    requires HeadCompare(a, b) <= 0 && HeadCompare(b, c) <= 0
    ensures HeadCompare(a, c) <= 0
    ensures HeadCompare(a, b) < 0 || HeadCompare(b, c) < 0 ==> HeadCompare(a, c) < 0
  {
    if a != "HEAD" && b != "HEAD" && c != "HEAD" {
      NumericCompareTransitive(a, b, c);
    }
  }

  /** `HEAD` lies below every other version and equals itself. */
  lemma HeadIsMinimum(b: string)
    ensures b != "HEAD" ==> HeadCompare("HEAD", b) < 0 && HeadCompare(b, "HEAD") > 0
    ensures HeadCompare("HEAD", "HEAD") == 0
  {
  }

  /** Trailing zero components do not matter: `4.2` and `4.2.0` compare equal. */
  lemma {:induction false} TrailingZerosEqual(p: seq<int>, zeros: nat)
    ensures CompareFrom(p, p + seq(zeros, _ => 0), 0) == 0
  {
    var q := p + seq(zeros, _ => 0);
    forall i: nat ensures Pad(p, i) == Pad(q, i) {
      if i >= |p| && i < |q| { assert q[i] == 0; }
    }
    CompareFromZero(p, q, 0);
  }

  /** `v` never begins with `v` or `release-` when its first character is a digit. */
  lemma StripPlain(t: string)
    requires |t| > 0 && IsDigit(t[0])
    ensures StripPrefix(t) == t
  {
    assert t[..1] != "v" by { assert t[..1][0] == t[0]; }
    if |t| >= 8 {
      assert t[..8] != "release-" by { assert t[..8][0] == t[0]; }
    }
  }

  lemma StripRelease(t: string)
    ensures StripPrefix("release-" + t) == t
  {
    var s := "release-" + t;
    assert s[..1] == "r";
    assert s[..8] == "release-";
    assert s[8..] == t;
  }

  lemma StripV(t: string)
    ensures StripPrefix("v" + t) == t
  {
    var s := "v" + t;
    assert s[..1] == "v";
    assert s[1..] == t;
  }

  /** Versions with the same parts have the same components. */
  lemma SameParts(a: string, b: string)
    requires Parts(a) == Parts(b)
    ensures Components(a) == Components(b)
  {
  }

  /** A leading `release-` or `v` is ignored: `release-4.2` and `v4.2` are `4.2`. */
  lemma PrefixIgnored(t: string)
    requires |t| > 0 && IsDigit(t[0])
    ensures Components("release-" + t) == Components(t)
    ensures Components("v" + t) == Components(t)
    ensures NumericCompare("release-" + t, t) == 0 && NumericCompare("v" + t, t) == 0
  {
    StripPlain(t);
    StripRelease(t);
    StripV(t);
    SameParts("release-" + t, t);
    SameParts("v" + t, t);
    NumericCompareReflexive(t);
  }

}
