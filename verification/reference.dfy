/** A TwinCAT library reference: title, version and company, read from and
    written as `<title>, <version> (<company>)`, with the reference's own
    equality, ordering and latest-version selection. */
module LibraryReference {
  import opened Wrappers
  import opened Text
  import opened Versions
  import opened ReferencePattern

  datatype Reference = Reference(title: string, version: Version, company: string)

  /** The TcLibraryException raised by the operations, told apart by message. */
  datatype Error =
    | InvalidLibraryString(text: string)  // parse_string: pattern or version rejected
    | MismatchedTitleOrCompany            // select_latest: mixed titles or companies

  // ---------------------------------------------------------------------------
  // Parsing
  // ---------------------------------------------------------------------------

  /** s reads as the fields (t, v, c): its greedy match has title t and company
      c, and its version text parses as v. */
  ghost predicate ParsesAs(s: string, t: string, v: Version, c: string) {
    exists g :: GreedyFit(s, g) && Title(s, g) == t && ParseVersion(VersionText(s, g)) == Some(v)
                && Company(s, g) == c
  }

  /** Title, version and company of a reference string. Fails, with the
      string in the error and no partial result, when the string does not
      match the reference pattern or its version text is not a version. */
  function ParseString(s: string): (r: Result<(string, Version, string), Error>)
    ensures r.Success? ==> ParsesAs(s, r.value.0, r.value.1, r.value.2)
    ensures r.Failure? ==> r.error == InvalidLibraryString(s)
    ensures r.Failure? ==> forall t, v, c :: !ParsesAs(s, t, v, c)
  {
    match Match(s)
    case None => Failure(InvalidLibraryString(s))
    case Some(g) =>
      match ParseVersion(VersionText(s, g))
      case None =>
        ParseFailureComplete(s, g);
        Failure(InvalidLibraryString(s))
      case Some(v) => Success((Title(s, g), v, Company(s, g)))
  }

  lemma ParseFailureComplete(s: string, g: Groups)
    requires GreedyFit(s, g) && ParseVersion(VersionText(s, g)).None?
    ensures forall t, v, c :: !ParsesAs(s, t, v, c)
  {
    forall t, v, c | ParsesAs(s, t, v, c)
      ensures false
    {
      var h :| GreedyFit(s, h) && ParseVersion(VersionText(s, h)) == Some(v);
      GreedyFitUnique(s, g, h);
    }
  }

  /** The reference a reference string describes. */
  function FromString(s: string): (r: Result<Reference, Error>)
    ensures r.Success? ==> ParsesAs(s, r.value.title, r.value.version, r.value.company)
    ensures r.Failure? ==> r.error == InvalidLibraryString(s)
                           && forall t, v, c :: !ParsesAs(s, t, v, c)
  {
    match ParseString(s)
    case Failure(e) => Failure(e)
    case Success((t, v, c)) => Success(Reference(t, v, c))
  }

  /** The version is the wildcard "*". */
  predicate IsAnyVersion(r: Reference) {
    r.version.Any?
  }

  /** A reference read from a string has the wildcard version exactly when
      its version text is "*"; any other version text is parsed. */
  lemma FromStringWildcard(s: string)
    requires FromString(s).Success?
    ensures Match(s).Some?
    ensures IsAnyVersion(FromString(s).value) <==> VersionText(s, Match(s).value) == "*"
  {
  }

  /** Reading `<title>, <version> (<company>)` when the version text has no
      comma or opening parenthesis (a dotted number or "*") and the company
      has no ` (`: the title comes back whole, even with commas or
      parentheses in it, and the version text decides success. */
  lemma ParseComposed(t: string, vt: string, c: string)
    requires forall k :: 0 <= k < |vt| ==> vt[k] != ',' && vt[k] != '('
    requires !HasPair(c, ' ', '(')
    ensures ParseString(Compose(t, vt, c)) ==
      match ParseVersion(vt)
      case Some(v) => Success((t, v, c))
      case None => Failure(InvalidLibraryString(Compose(t, vt, c)))
  {
    MatchCompose(t, vt, c);
    ComposeFields(t, vt, c);
  }

  /** A printed version between a title and a company without ` (` reads
      back as the three parts. */
  lemma ParseRendered(t: string, v: Version, c: string)
    requires !HasPair(c, ' ', '(')
    ensures ParseString(Compose(t, RenderVersion(v), c)) == Success((t, v, c))
  {
    RenderVersionChars(v);
    ParseComposed(t, RenderVersion(v), c);
    VersionRoundTrip(v);
  }

  /** The example of the reference format. */
  lemma ParseExample()
    ensures ParseString("Tc2_Standard, 3.3.3.0 (Beckhoff Automation GmbH)")
         == Success(("Tc2_Standard", Fixed([3, 3, 3, 0]), "Beckhoff Automation GmbH"))
  {
    ExampleText();
    ExampleCompany();
    ExampleRelease();
    ParseRendered("Tc2_Standard", Fixed([3, 3, 3, 0]), "Beckhoff Automation GmbH");
  }

  lemma ExampleCompany()
    ensures !HasPair("Beckhoff Automation GmbH", ' ', '(')
  {
    NoCharNoPair("Beckhoff Automation GmbH", ' ', '(');
  }

  lemma ExampleText()
    ensures "Tc2_Standard, 3.3.3.0 (Beckhoff Automation GmbH)"
         == Compose("Tc2_Standard", "3.3.3.0", "Beckhoff Automation GmbH")
  {
    assert "Tc2_Standard" + ", " == "Tc2_Standard, ";
    assert "Tc2_Standard, " + "3.3.3.0" == "Tc2_Standard, 3.3.3.0";
    assert "Tc2_Standard, 3.3.3.0" + " (" == "Tc2_Standard, 3.3.3.0 (";
    assert "Tc2_Standard, 3.3.3.0 (" + "Beckhoff Automation GmbH"
        == "Tc2_Standard, 3.3.3.0 (Beckhoff Automation GmbH";
    assert "Tc2_Standard, 3.3.3.0 (Beckhoff Automation GmbH" + ")"
        == "Tc2_Standard, 3.3.3.0 (Beckhoff Automation GmbH)";
  }

  lemma ExampleRelease()
    ensures RenderVersion(Fixed([3, 3, 3, 0])) == "3.3.3.0"
  {
    var r: Release := [3, 3, 3, 0];
    assert r[1..] == [3, 3, 0] && r[1..][1..] == [3, 0] && r[1..][1..][1..] == [0];
  }

  // ---------------------------------------------------------------------------
  // Rendering
  // ---------------------------------------------------------------------------

  /** The reference in the format `<title>, <version> (<company>)`. */
  function Render(r: Reference): string {
    Compose(r.title, RenderVersion(r.version), r.company)
  }

  /** A rendered reference reads back as itself exactly when its company has
      no ` (`; titles may hold any text. */
  lemma RenderRoundTrip(r: Reference)
    ensures FromString(Render(r)) == Success(r) <==> !HasPair(r.company, ' ', '(')
  {
    if HasPair(r.company, ' ', '(') {
      RenderOpenInCompany(r);
    } else {
      ParseRendered(r.title, r.version, r.company);
    }
  }

  /** With a ` (` in the company, the greedy match moves the title or the
      version group, so the rendered text reads as another reference or fails. */
  lemma RenderOpenInCompany(r: Reference)
    requires HasPair(r.company, ' ', '(')
    ensures FromString(Render(r)) != Success(r)
  {
    var vt := RenderVersion(r.version);
    var s := Compose(r.title, vt, r.company);
    MatchComposeOpenInCompany(r.title, vt, r.company);
    var g := Match(s).value;
    if g.titleEnd == |r.title| {
      OpenParenInVersionText(r.title, vt, r.company, g);
      assert ParseString(s).Failure?;
    } else {
      assert |Title(s, g)| != |r.title|;
    }
  }

  /** A version group that runs past the intended ` (` holds a '(' and is no
      version. */
  lemma OpenParenInVersionText(t: string, vt: string, c: string, g: Groups)
    requires Fits(Compose(t, vt, c), g)
    requires g.titleEnd == |t| && g.versionEnd > |t| + 3 + |vt|
    ensures ParseVersion(VersionText(Compose(t, vt, c), g)).None?
  {
    var s := Compose(t, vt, c);
    var front := t + ", " + vt + " (";
    assert s == front + c + ")";
    assert s[|t| + 3 + |vt|] == '(';
    var text := VersionText(s, g);
    assert text[|vt| + 1] == '(';
    assert !VersionChar(text[|vt| + 1]);
  }

  // ---------------------------------------------------------------------------
  // Equality and ordering
  // ---------------------------------------------------------------------------

  /** Title and company agree up to case. */
  predicate SameName(a: Reference, b: Reference) {
    Lower(a.title) == Lower(b.title) && Lower(a.company) == Lower(b.company)
  }

  /** Reference equality: same name up to case, and equal versions unless
      either side is the wildcard. */
  predicate Equal(a: Reference, b: Reference) {
    && (VersionEquals(a.version, b.version) || IsAnyVersion(a) || IsAnyVersion(b))
    && SameName(a, b)
  }

  lemma EqualReflexive(a: Reference)
    ensures Equal(a, a)
  {
    if a.version.Fixed? {
      CompareReflexive(a.version.release);
    }
  }

  lemma EqualSymmetric(a: Reference, b: Reference)
    ensures Equal(a, b) <==> Equal(b, a)
  {
    if a.version.Fixed? && b.version.Fixed? {
      CompareAntisymmetric(a.version.release, b.version.release);
    }
  }

  /** Between fixed versions, equality is the name up to case and the release
      segment up to trailing zeros. */
  lemma EqualFixed(a: Reference, b: Reference)
    requires a.version.Fixed? && b.version.Fixed?
    ensures Equal(a, b) <==> SameName(a, b) && StripZeros(a.version.release) == StripZeros(b.version.release)
  {
    VersionEqualsMeansSameStripped(a.version, b.version);
  }

  /** Equality does not see the case of titles and companies. */
  lemma EqualIgnoresCase(a: Reference, b: Reference)
    ensures Equal(a, b) <==> Equal(Reference(Lower(a.title), a.version, Lower(a.company)), b)
  {
    LowerIdempotent(a.title);
    LowerIdempotent(a.company);
  }

  /** The wildcard makes equality blind to versions, which is why equality is
      not transitive. */
  lemma EqualNotTransitive()
    ensures var a := Reference("Tc2_Standard", Fixed([3, 3, 3, 0]), "Beckhoff");
      var b := Reference("Tc2_Standard", Any, "Beckhoff");
      var c := Reference("Tc2_Standard", Fixed([3, 4]), "Beckhoff");
      Equal(a, b) && Equal(b, c) && !Equal(a, c)
  {
    assert Compare([3, 3, 3, 0], [3, 4]) == -1 by {
      assert Tail0([3, 3, 3, 0]) == [3, 3, 0];
      assert Tail0([3, 4]) == [4];
    }
  }

  /** The wildcard matches any version, and case does not matter. */
  lemma EqualExamples()
    ensures Equal(Reference("Tc2_Standard", Any, "Beckhoff"),
                  Reference("Tc2_Standard", Fixed([3, 3, 3, 0]), "Beckhoff"))
    ensures Equal(Reference("tc2_standard", Fixed([1, 0]), "beckhoff"),
                  Reference("TC2_STANDARD", Fixed([1, 0]), "BECKHOFF"))
  {
    CompareReflexive([1, 0]);
    assert Lower("TC2_STANDARD") == "tc2_standard";
    assert Lower("BECKHOFF") == "beckhoff";
  }

  /** Python raises TypeError when a fixed version is compared with "*" by
      `>`: a wildcard on the left never reaches the version comparison. */
  predicate CanCompare(a: Reference, b: Reference) {
    a.version.Any? || b.version.Fixed?
  }

  /** Reference ordering: same name up to case, and the left side is the
      wildcard or has the higher version. */
  predicate Greater(a: Reference, b: Reference)
    requires CanCompare(a, b)
  {
    && (IsAnyVersion(a) || Compare(a.version.release, b.version.release) > 0)
    && SameName(a, b)
  }

  predicate GreaterOrEqual(a: Reference, b: Reference)
    requires CanCompare(a, b)
  {
    Greater(a, b) || Equal(a, b)
  }

  /** A reference is greater than itself exactly when it has the wildcard
      version. */
  lemma GreaterSelf(a: Reference)
    ensures Greater(a, a) <==> IsAnyVersion(a)
  {
    if a.version.Fixed? {
      CompareReflexive(a.version.release);
    }
  }

  /** A wildcard reference is greater than every reference of the same name. */
  lemma WildcardGreatest(a: Reference, b: Reference)
    requires IsAnyVersion(a) && SameName(a, b)
    ensures Greater(a, b) && GreaterOrEqual(a, b) && Equal(a, b)
  {
  }

  lemma GreaterTransitive(a: Reference, b: Reference, c: Reference)
    requires CanCompare(a, b) && CanCompare(b, c) && CanCompare(a, c)
    requires Greater(a, b) && Greater(b, c)
    ensures Greater(a, c)
  {
    if a.version.Fixed? {
      CompareAntisymmetric(a.version.release, b.version.release);
      CompareAntisymmetric(b.version.release, c.version.release);
      CompareAntisymmetric(a.version.release, c.version.release);
      CompareTransitive(c.version.release, b.version.release, a.version.release);
    }
  }

  /** Between fixed references of one name exactly one of a > b, a == b and
      b > a holds. */
  lemma Trichotomy(a: Reference, b: Reference)
    requires a.version.Fixed? && b.version.Fixed? && SameName(a, b)
    ensures Greater(a, b) || Equal(a, b) || Greater(b, a)
    ensures !(Greater(a, b) && Equal(a, b))
    ensures !(Greater(b, a) && Equal(a, b))
    ensures !(Greater(a, b) && Greater(b, a))
  {
    CompareAntisymmetric(a.version.release, b.version.release);
  }

  /** Within one name and one kind of version, `>=` is the version order.
      The mixed case with the wildcard on the left is WildcardGreatest. */
  lemma GreaterOrEqualIsVersionOrder(a: Reference, b: Reference)
    requires SameName(a, b) && Orderable(a.version, b.version)
    ensures GreaterOrEqual(a, b) <==> CompareVersions(a.version, b.version) >= 0
  {
  }

  /** `>=` is total within one name and one kind of version. */
  lemma GreaterOrEqualTotal(a: Reference, b: Reference)
    requires SameName(a, b) && Orderable(a.version, b.version)
    ensures GreaterOrEqual(a, b) || GreaterOrEqual(b, a)
  {
    CompareVersionsAntisymmetric(a.version, b.version);
  }

  // ---------------------------------------------------------------------------
  // Latest of a family
  // ---------------------------------------------------------------------------

  /** Every reference has the title and company of the first, compared
      exactly. */
  predicate SameTitleAndCompany(refs: seq<Reference>) {
    forall i :: 0 <= i < |refs| ==> refs[i].title == refs[0].title && refs[i].company == refs[0].company
  }

  /** Every version is the wildcard (any = true) or every version is fixed. */
  predicate AllOfKind(refs: seq<Reference>, any: bool) {
    forall i :: 0 <= i < |refs| ==> refs[i].version.Any? == any
  }

  predicate UniformKind(refs: seq<Reference>) {
    |refs| == 0 || AllOfKind(refs, refs[0].version.Any?)
  }

  /** Sorting by version succeeds: Python's sort raises TypeError on a list
      of two or more references that mixes "*" with fixed versions. */
  predicate SortableVersions(refs: seq<Reference>) {
    |refs| < 2 || !SameTitleAndCompany(refs) || UniformKind(refs)
  }

  /** The index of the last reference with the highest version. */
  function LatestIndex(refs: seq<Reference>): (m: nat)
    requires |refs| > 0 && UniformKind(refs)
    ensures m < |refs|
    ensures forall j :: 0 <= j < |refs| ==> CompareVersions(refs[j].version, refs[m].version) <= 0
    ensures forall j :: m < j < |refs| ==> CompareVersions(refs[j].version, refs[m].version) < 0
    decreases |refs|
  {
    if |refs| == 1 then
      CompareVersionsReflexive(refs[0].version);
      0
    else
      var n := |refs| - 1;
      var m := LatestIndex(refs[..n]);
      if CompareVersions(refs[m].version, refs[n].version) <= 0 then
        LatestExtendedByLast(refs, m);
        n
      else
        CompareVersionsAntisymmetric(refs[m].version, refs[n].version);
        m
  }

  lemma CompareVersionsReflexive(u: Version)
    ensures Orderable(u, u) && CompareVersions(u, u) == 0
  {
    if u.Fixed? {
      CompareReflexive(u.release);
    }
  }

  lemma LatestExtendedByLast(refs: seq<Reference>, m: nat)
    requires |refs| > 1 && UniformKind(refs) && m < |refs| - 1
    requires forall j :: 0 <= j < |refs| - 1 ==> CompareVersions(refs[j].version, refs[m].version) <= 0
    requires CompareVersions(refs[m].version, refs[|refs| - 1].version) <= 0
    ensures forall j :: 0 <= j < |refs| ==> CompareVersions(refs[j].version, refs[|refs| - 1].version) <= 0
  {
    var n := |refs| - 1;
    forall j | 0 <= j < |refs|
      ensures CompareVersions(refs[j].version, refs[n].version) <= 0
    {
      if j < n {
        CompareVersionsTransitive(refs[j].version, refs[m].version, refs[n].version);
      } else {
        CompareVersionsReflexive(refs[n].version);
      }
    }
  }

  /** x is refs[m] for some m, at least every reference, and no later
      reference is at least x: the last of the highest versions. */
  ghost predicate IsLatest(refs: seq<Reference>, x: Reference)
    requires UniformKind(refs)
  {
    exists m :: 0 <= m < |refs| && refs[m] == x
      && (forall j :: 0 <= j < |refs| ==> GreaterOrEqual(x, refs[j]))
      && (forall j :: m < j < |refs| ==> !GreaterOrEqual(refs[j], x))
  }

  lemma LatestIndexIsLatest(refs: seq<Reference>)
    requires |refs| > 0 && UniformKind(refs) && SameTitleAndCompany(refs)
    ensures IsLatest(refs, refs[LatestIndex(refs)])
  {
    var m := LatestIndex(refs);
    var x := refs[m];
    forall j | 0 <= j < |refs|
      ensures GreaterOrEqual(x, refs[j])
    {
      CompareVersionsAntisymmetric(refs[j].version, x.version);
      GreaterOrEqualIsVersionOrder(x, refs[j]);
    }
    forall j | m < j < |refs|
      ensures !GreaterOrEqual(refs[j], x)
    {
      GreaterOrEqualIsVersionOrder(refs[j], x);
    }
  }

  /** select_latest: none for no references, the reference itself for one,
      an error when two or more do not share title and company exactly, and
      otherwise the last reference with the highest version. */
  function SelectLatest(refs: seq<Reference>): (r: Result<Option<Reference>, Error>)
    requires SortableVersions(refs)
    ensures r == Success(None) <==> |refs| == 0
    ensures |refs| == 1 ==> r == Success(Some(refs[0]))
    ensures r.Failure? <==> |refs| >= 2 && !SameTitleAndCompany(refs)
    ensures r.Failure? ==> r.error == MismatchedTitleOrCompany
    ensures r.Success? && r.value.Some? ==> UniformKind(refs) && IsLatest(refs, r.value.value)
  {
    if |refs| == 0 then Success(None)
    else if |refs| == 1 then
      LatestIndexIsLatest(refs);
      Success(Some(refs[0]))
    else if !SameTitleAndCompany(refs) then Failure(MismatchedTitleOrCompany)
    else
      LatestIndexIsLatest(refs);
      Success(Some(refs[LatestIndex(refs)]))
  }

  /** No references give none; references of two titles raise. */
  lemma SelectLatestEdgeExamples()
    ensures SelectLatest([]) == Success(None)
    ensures SelectLatest([Reference("A", Fixed([1, 0]), "X"), Reference("B", Fixed([1, 0]), "X")])
         == Failure(MismatchedTitleOrCompany)
  {
  }

  /** Of two tied highest versions (2.0 and 2.0.0) the later one is
      returned; a higher version wins wherever it stands. */
  lemma SelectLatestTieExample()
    ensures SelectLatest([Reference("A", Fixed([2, 0]), "X"), Reference("A", Fixed([2, 0, 0]), "X")])
         == Success(Some(Reference("A", Fixed([2, 0, 0]), "X")))
    ensures SelectLatest([Reference("A", Fixed([2, 0]), "X"), Reference("A", Fixed([1, 5]), "X")])
         == Success(Some(Reference("A", Fixed([2, 0]), "X")))
  {
    assert Compare([2, 0], [2, 0, 0]) == 0 by {
      assert Tail0([2, 0]) == [0] && Tail0([2, 0, 0]) == [0, 0];
      assert Tail0([0]) == [] && Tail0([0, 0]) == [0];
    }
    assert Compare([2, 0], [1, 5]) == 1;
  }
}
