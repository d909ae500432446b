/** Library versions: the wildcard "*" or the release segment of a PEP 440
    version (dotted non-negative integers), with PEP 440's ordering of release
    segments, its textual form and its parser. */
module Versions {
  import opened Wrappers
  import opened Text

  /** A release segment such as 3.3.3.0; never empty. */
  type Release = r: seq<nat> | |r| > 0 witness [0]

  /** The version of a library reference: the wildcard "*" or a fixed release. */
  datatype Version = Any | Fixed(release: Release)

  // ---------------------------------------------------------------------------
  // Ordering of release segments
  // ---------------------------------------------------------------------------

  function Head0(a: seq<nat>): nat { if |a| == 0 then 0 else a[0] }
  function Tail0(a: seq<nat>): seq<nat> { if |a| == 0 then [] else a[1..] }

  /** Three-way comparison of two release segments, the shorter one padded with
      zeros: -1 when a < b, 0 when they are equal, 1 when a > b. */
  function Compare(a: seq<nat>, b: seq<nat>): (c: int)
    ensures -1 <= c <= 1
    decreases |a| + |b|
  {
    if |a| == 0 && |b| == 0 then 0
    else if Head0(a) < Head0(b) then -1
    else if Head0(a) > Head0(b) then 1
    else Compare(Tail0(a), Tail0(b))
  }

  /** The release segment with its trailing zeros removed, as PEP 440's
      comparison key holds it. */
  function StripZeros(a: seq<nat>): (r: seq<nat>)
    ensures |r| <= |a| && r == a[..|r|]
    ensures |r| == 0 || r[|r| - 1] != 0
    ensures forall k :: |r| <= k < |a| ==> a[k] == 0
    decreases |a|
  {
    if |a| > 0 && a[|a| - 1] == 0 then StripZeros(a[..|a| - 1]) else a
  }

  /** Python's ordering of tuples of integers: element by element, a proper
      prefix before the longer tuple. */
  function LexCompare(a: seq<nat>, b: seq<nat>): (c: int)
    ensures -1 <= c <= 1
  {
    if |a| == 0 && |b| == 0 then 0
    else if |a| == 0 then -1
    else if |b| == 0 then 1
    else if a[0] < b[0] then -1
    else if a[0] > b[0] then 1
    else LexCompare(a[1..], b[1..])
  }

  /** Prepending one element to a stripped sequence. */
  function ConsStripped(x: nat, t: seq<nat>): seq<nat> {
    if x == 0 && |t| == 0 then [] else [x] + t
  }

  lemma {:induction false} StripZerosCons(x: nat, t: seq<nat>)
    ensures StripZeros([x] + t) == ConsStripped(x, StripZeros(t))
    decreases |t|
  {
    if |t| > 0 && t[|t| - 1] == 0 {
      assert ([x] + t)[..|t|] == [x] + t[..|t| - 1];
      StripZerosCons(x, t[..|t| - 1]);
    }
  }

  lemma StripZerosHeadTail(a: seq<nat>)
    ensures StripZeros(a) == ConsStripped(Head0(a), StripZeros(Tail0(a)))
  {
    if |a| > 0 {
      assert a == [a[0]] + a[1..];
      StripZerosCons(a[0], a[1..]);
    }
  }

  /** Padding with zeros and comparing is the same as stripping trailing zeros
      and comparing the tuples, which is how PEP 440 orders release segments. */
  lemma {:induction false} CompareIsStrippedLexCompare(a: seq<nat>, b: seq<nat>)
    ensures Compare(a, b) == LexCompare(StripZeros(a), StripZeros(b))
    decreases |a| + |b|
  {
    if |a| == 0 && |b| == 0 {
    } else {
      StripZerosHeadTail(a);
      StripZerosHeadTail(b);
      CompareIsStrippedLexCompare(Tail0(a), Tail0(b));
      var sa, sb := StripZeros(Tail0(a)), StripZeros(Tail0(b));
      if Head0(a) == Head0(b) && Head0(a) == 0 {
        if |sa| > 0 && |sb| > 0 {
          assert ([0] + sa)[1..] == sa && ([0] + sb)[1..] == sb;
        }
      } else if Head0(a) == Head0(b) {
        assert ([Head0(a)] + sa)[1..] == sa && ([Head0(b)] + sb)[1..] == sb;
      }
    }
  }

  lemma {:induction false} LexCompareZero(a: seq<nat>, b: seq<nat>)
    ensures LexCompare(a, b) == 0 <==> a == b
  {
    if |a| > 0 && |b| > 0 && a[0] == b[0] {
      LexCompareZero(a[1..], b[1..]);
      assert a == [a[0]] + a[1..] && b == [b[0]] + b[1..];
    }
  }

  /** Two release segments compare equal exactly when they differ only in
      trailing zeros (1.0 == 1.0.0). */
  lemma CompareZeroIffSameStripped(a: seq<nat>, b: seq<nat>)
    ensures Compare(a, b) == 0 <==> StripZeros(a) == StripZeros(b)
  {
    CompareIsStrippedLexCompare(a, b);
    LexCompareZero(StripZeros(a), StripZeros(b));
  }

  lemma {:induction false} CompareReflexive(a: seq<nat>)
    ensures Compare(a, a) == 0
    decreases |a|
  {
    if |a| > 0 {
      CompareReflexive(Tail0(a));
    }
  }

  lemma {:induction false} CompareAntisymmetric(a: seq<nat>, b: seq<nat>)
    ensures Compare(a, b) == -Compare(b, a)
    decreases |a| + |b|
  {
    if |a| > 0 || |b| > 0 {
      CompareAntisymmetric(Tail0(a), Tail0(b));
    }
  }

  /** The padded comparison is transitive; the result is strict as soon as one
      of the two steps is. */
  lemma {:induction false} CompareTransitive(a: seq<nat>, b: seq<nat>, c: seq<nat>)
    requires Compare(a, b) <= 0 && Compare(b, c) <= 0
    ensures Compare(a, c) <= 0
    ensures Compare(a, b) < 0 || Compare(b, c) < 0 ==> Compare(a, c) < 0
    decreases |a| + |b| + |c|
  {
    if |a| == 0 && |b| == 0 && |c| == 0 {
    } else if Head0(a) == Head0(b) == Head0(c) {
      CompareTransitive(Tail0(a), Tail0(b), Tail0(c));
    }
  }

  // ---------------------------------------------------------------------------
  // Comparing versions
  // ---------------------------------------------------------------------------

  /** Python can order two version values only when both are the string "*" or
      both are parsed versions; any other pair raises TypeError. */
  predicate Orderable(u: Version, v: Version) { u.Any? == v.Any? }

  /** Three-way comparison of two orderable versions ("*" equals "*"). */
  function CompareVersions(u: Version, v: Version): (c: int)
    requires Orderable(u, v)
    ensures -1 <= c <= 1
  {
    if u.Any? then 0 else Compare(u.release, v.release)
  }

  lemma CompareVersionsAntisymmetric(u: Version, v: Version)
    requires Orderable(u, v)
    ensures CompareVersions(u, v) == -CompareVersions(v, u)
  {
    if u.Fixed? {
      CompareAntisymmetric(u.release, v.release);
    }
  }

  /** Orderable versions form a total preorder under CompareVersions. */
  lemma CompareVersionsTransitive(u: Version, v: Version, w: Version)
    requires Orderable(u, v) && Orderable(v, w)
    requires CompareVersions(u, v) <= 0 && CompareVersions(v, w) <= 0
    ensures CompareVersions(u, w) <= 0
  {
    if u.Fixed? {
      CompareTransitive(u.release, v.release, w.release);
    }
  }

  /** Python's `==` on two version values: a parsed version never equals the
      string "*". */
  predicate VersionEquals(u: Version, v: Version) {
    match (u, v)
    case (Any, Any) => true
    case (Fixed(a), Fixed(b)) => Compare(a, b) == 0
    case _ => false
  }

  lemma VersionEqualsMeansSameStripped(u: Version, v: Version)
    requires u.Fixed? && v.Fixed?
    ensures VersionEquals(u, v) <==> StripZeros(u.release) == StripZeros(v.release)
  {
    CompareZeroIffSameStripped(u.release, v.release);
  }

  // ---------------------------------------------------------------------------
  // Text of a release segment
  // ---------------------------------------------------------------------------

  /** The release segment printed as PEP 440 normalises it: each number in
      shortest decimal form, separated by dots. */
  function RenderRelease(r: Release): string
    decreases |r|
  {
    if |r| == 1 then DecimalString(r[0])
    else DecimalString(r[0]) + "." + RenderRelease(r[1..])
  }

  /** The index of the first dot in t, or |t| when there is none. */
  function FirstDot(t: string): (p: nat)
    ensures p <= |t|
    ensures p < |t| ==> t[p] == '.'
    ensures forall k :: 0 <= k < p ==> t[k] != '.'
  {
    if |t| == 0 then 0
    else if t[0] == '.' then 0
    else 1 + FirstDot(t[1..])
  }

  /** Reads a `[0-9]+(\.[0-9]+)*` string; anything else gives None. */
  function ParseRelease(t: string): Option<Release>
    decreases |t|
  {
    var p := FirstDot(t);
    if p == 0 || !AllDigits(t[..p]) then None
    else if p == |t| then Some([DecimalValue(t)])
    else
      match ParseRelease(t[p + 1..])
      case None => None
      case Some(rest) => Some([DecimalValue(t[..p])] + rest)
  }

  /** The strings PEP 440 accepts as a bare release segment: digits and dots,
      beginning and ending with a digit, no two dots in a row. */
  predicate WellFormedRelease(t: string) {
    && |t| > 0
    && IsDigit(t[0]) && IsDigit(t[|t| - 1])
    && (forall k :: 0 <= k < |t| ==> IsDigit(t[k]) || t[k] == '.')
    && (forall k :: 0 <= k < |t| - 1 ==> !(t[k] == '.' && t[k + 1] == '.'))
  }

  /** ParseRelease succeeds on exactly the well-formed release strings. */
  lemma {:induction false} ParseReleaseAccepts(t: string)
    ensures ParseRelease(t).Some? <==> WellFormedRelease(t)
    decreases |t|
  {
    var p := FirstDot(t);
    if p == 0 {
      assert |t| > 0 ==> t[0] == '.';
    } else if !AllDigits(t[..p]) {
      var k :| 0 <= k < p && !IsDigit(t[..p][k]);
      assert t[k] != '.' && !IsDigit(t[k]);
    } else if p == |t| {
      assert t[..p] == t;
    } else {
      var u := t[p + 1..];
      ParseReleaseAccepts(u);
      assert IsDigit(t[p - 1]) by { assert t[..p][p - 1] == t[p - 1]; }
      if WellFormedRelease(u) {
        forall k | 0 <= k < |t|
          ensures IsDigit(t[k]) || t[k] == '.'
        {
          if k < p { assert t[..p][k] == t[k]; } else if k > p { assert t[k] == u[k - p - 1]; }
        }
        forall k | 0 <= k < |t| - 1
          ensures !(t[k] == '.' && t[k + 1] == '.')
        {
          if k + 1 < p {
            assert t[..p][k] == t[k];
          } else if k > p {
            assert t[k] == u[k - p - 1] && t[k + 1] == u[k - p];
          }
        }
      }
      if WellFormedRelease(t) {
        assert |u| > 0;
        forall k | 0 <= k < |u|
          ensures IsDigit(u[k]) || u[k] == '.'
        {
          assert u[k] == t[p + 1 + k];
        }
        forall k | 0 <= k < |u| - 1
          ensures !(u[k] == '.' && u[k + 1] == '.')
        {
          assert u[k] == t[p + 1 + k] && u[k + 1] == t[p + 2 + k];
        }
        assert u[0] == t[p + 1];
      }
    }
  }

  /** A lone number field reads as that number. */
  lemma ParseOneField(d: string)
    requires |d| > 0 && AllDigits(d)
    ensures ParseRelease(d) == Some([DecimalValue(d)])
  {
    assert forall k :: 0 <= k < |d| ==> d[k] != '.';
    assert d[..|d|] == d;
  }

  /** A number field followed by a dot reads as that number in front of what
      the rest reads as. */
  lemma ParseFieldThenRest(d: string, t: string)
    requires |d| > 0 && AllDigits(d)
    ensures ParseRelease(d + "." + t) ==
      match ParseRelease(t)
      case None => None
      case Some(rest) => Some([DecimalValue(d)] + rest)
  {
    var s := d + "." + t;
    FirstDotAfterDigits(d, t);
    assert s[..|d|] == d;
    assert s[|d| + 1..] == t;
  }

  /** Printing a release segment and reading it back gives the same segment. */
  lemma {:induction false} ReleaseRoundTrip(r: Release)
    ensures ParseRelease(RenderRelease(r)) == Some(r)
    decreases |r|
  {
    if |r| == 1 {
      SingleFieldRoundTrip(r);
    } else {
      ReleaseRoundTrip(r[1..]);
      FieldThenRestRoundTrip(r);
    }
  }

  lemma SingleFieldRoundTrip(r: Release)
    requires |r| == 1
    ensures ParseRelease(RenderRelease(r)) == Some(r)
  {
    var d := DecimalString(r[0]);
    assert RenderRelease(r) == d;
    DecimalRoundTrip(r[0]);
    ParseOneField(d);
    assert r == [r[0]];
  }

  lemma FieldThenRestRoundTrip(r: Release)
    requires |r| > 1 && ParseRelease(RenderRelease(r[1..])) == Some(r[1..])
    ensures ParseRelease(RenderRelease(r)) == Some(r)
  {
    var d := DecimalString(r[0]);
    var t := RenderRelease(r[1..]);
    assert RenderRelease(r) == d + "." + t;
    DecimalRoundTrip(r[0]);
    ParseFieldThenRest(d, t);
    assert [r[0]] + r[1..] == r;
  }

  lemma FirstDotAfterDigits(d: string, t: string)
    requires AllDigits(d)
    ensures FirstDot(d + "." + t) == |d|
  {
    var s := d + "." + t;
    assert s[|d|] == '.';
    assert forall k :: 0 <= k < |d| ==> s[k] == d[k];
  }

  // ---------------------------------------------------------------------------
  // Text of a version
  // ---------------------------------------------------------------------------

  /** Whitespace the PEP 440 pattern allows around a version: the six
      whitespace characters of the C locale (a subset of Python's `\s`). */
  predicate IsSpace(c: char) {
    c == ' ' || c == '\t' || c == '\n' || c == '\r' || c as int == 11 || c as int == 12
  }

  /** The index of the first non-whitespace character of s at or after i,
      or |s|. */
  function SpaceRunEnd(s: string, i: nat): (n: nat)
    requires i <= |s|
    ensures i <= n <= |s|
    ensures forall k :: i <= k < n ==> IsSpace(s[k])
    ensures n < |s| ==> !IsSpace(s[n])
    decreases |s| - i
  {
    if i < |s| && IsSpace(s[i]) then SpaceRunEnd(s, i + 1) else i
  }

  /** The index just after the last non-whitespace character of s before j,
      or 0. */
  function SpaceRunStart(s: string, j: nat): (n: nat)
    requires j <= |s|
    ensures n <= j
    ensures forall k :: n <= k < j ==> IsSpace(s[k])
    ensures n > 0 ==> !IsSpace(s[n - 1])
    decreases j
  {
    if j > 0 && IsSpace(s[j - 1]) then SpaceRunStart(s, j - 1) else j
  }

  /** s without its leading whitespace. */
  function TrimStart(s: string): (r: string)
    ensures |r| <= |s| && r == s[|s| - |r|..]
    ensures forall k :: 0 <= k < |s| - |r| ==> IsSpace(s[k])
    ensures |r| > 0 ==> !IsSpace(r[0])
  {
    s[SpaceRunEnd(s, 0)..]
  }

  /** s without its trailing whitespace. */
  function TrimEnd(s: string): (r: string)
    ensures |r| <= |s| && r == s[..|r|]
    ensures forall k :: |r| <= k < |s| ==> IsSpace(s[k])
    ensures |r| > 0 ==> !IsSpace(r[|r| - 1])
  {
    s[..SpaceRunStart(s, |s|)]
  }

  /** s without one leading `v` or `V`. */
  function DropV(s: string): (r: string)
    ensures r == s || (|s| > 0 && (s[0] == 'v' || s[0] == 'V') && r == s[1..])
    ensures |r| > 0 && IsDigit(r[0]) && |s| > 0 && IsDigit(s[0]) ==> r == s
  {
    if |s| > 0 && (s[0] == 'v' || s[0] == 'V') then s[1..] else s
  }

  /** The characters a version string read as a release is made of. */
  predicate VersionChar(c: char) {
    IsDigit(c) || c == '.' || c == 'v' || c == 'V' || IsSpace(c)
  }

  /** The version text of a reference: exactly "*" is kept as the wildcard,
      anything else is read as a PEP 440 version made of a release segment
      only (surrounding whitespace and a leading `v` allowed). None stands for
      the InvalidVersion that the version parser raises. */
  function ParseVersion(t: string): (v: Option<Version>)
    ensures v == Some(Any) <==> t == "*"
    ensures t != "*" ==> (v.Some? <==> WellFormedRelease(DropV(TrimEnd(TrimStart(t)))))
    ensures v.Some? && v.value.Fixed? ==> forall k :: 0 <= k < |t| ==> VersionChar(t[k])
  {
    if t == "*" then Some(Any)
    else
      var core := DropV(TrimEnd(TrimStart(t)));
      ParseReleaseAccepts(core);
      match ParseRelease(core)
      case None => None
      case Some(r) =>
        VersionTextChars(t, TrimStart(t), TrimEnd(TrimStart(t)));
        Some(Fixed(r))
  }

  lemma VersionTextChars(t: string, a: string, b: string)
    requires a == TrimStart(t) && b == TrimEnd(a)
    requires WellFormedRelease(DropV(b))
    ensures forall k :: 0 <= k < |t| ==> VersionChar(t[k])
  {
    DropVChars(b);
    TrimEndChars(a);
    TrimStartChars(t);
  }

  lemma DropVChars(b: string)
    requires WellFormedRelease(DropV(b))
    ensures forall k :: 0 <= k < |b| ==> VersionChar(b[k])
  {
    var c := DropV(b);
    forall k | 0 <= k < |b|
      ensures VersionChar(b[k])
    {
      if c == b {
        assert b[k] == c[k];
      } else if k > 0 {
        assert b[k] == c[k - 1];
      }
    }
  }

  lemma TrimEndChars(a: string)
    requires forall k :: 0 <= k < |TrimEnd(a)| ==> VersionChar(TrimEnd(a)[k])
    ensures forall k :: 0 <= k < |a| ==> VersionChar(a[k])
  {
    var b := TrimEnd(a);
    forall k | 0 <= k < |a|
      ensures VersionChar(a[k])
    {
      if k < |b| { assert a[k] == b[k]; }
    }
  }

  lemma TrimStartChars(t: string)
    requires forall k :: 0 <= k < |TrimStart(t)| ==> VersionChar(TrimStart(t)[k])
    ensures forall k :: 0 <= k < |t| ==> VersionChar(t[k])
  {
    var a := TrimStart(t);
    forall k | 0 <= k < |t|
      ensures VersionChar(t[k])
    {
      if k >= |t| - |a| { assert t[k] == a[k - (|t| - |a|)]; }
    }
  }

  /** The text of a version: "*" or the normalised release segment. */
  function RenderVersion(v: Version): string {
    match v
    case Any => "*"
    case Fixed(r) => RenderRelease(r)
  }

  lemma {:induction false} RenderReleaseShape(r: Release)
    ensures WellFormedRelease(RenderRelease(r))
  {
    ReleaseRoundTrip(r);
    ParseReleaseAccepts(RenderRelease(r));
  }

  /** Printing a version and reading it back gives the same version. */
  lemma VersionRoundTrip(v: Version)
    ensures ParseVersion(RenderVersion(v)) == Some(v)
  {
    if v.Fixed? {
      var t := RenderRelease(v.release);
      RenderReleaseShape(v.release);
      assert t != "*" by { assert IsDigit(t[0]); }
      assert TrimStart(t) == t by { assert !IsSpace(t[0]); }
      assert TrimEnd(t) == t by { assert !IsSpace(t[|t| - 1]); }
      ReleaseRoundTrip(v.release);
    }
  }

  /** A printed version uses only digits, dots and the star: in particular no
      comma and no parenthesis. */
  lemma RenderVersionChars(v: Version)
    ensures forall k :: 0 <= k < |RenderVersion(v)| ==>
      IsDigit(RenderVersion(v)[k]) || RenderVersion(v)[k] == '.' || RenderVersion(v)[k] == '*'
  {
    if v.Fixed? {
      RenderReleaseShape(v.release);
    }
  }
}
