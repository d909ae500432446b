/** The reference-string pattern `^(.*), (.*) \((.*)\)`, as Python's
    backtracking regex engine applies it: the first group is greedy and takes
    priority, then the second, then the third, and nothing is required after
    the closing parenthesis. Instead of a regex engine, the model states the
    outcome directly: of all ways to cut the string into the three groups, the
    match is the one whose group ends are lexicographically greatest. */
module ReferencePattern {
  import opened Wrappers
  import opened Text

  /** Where the three groups of a match end in a string s:
      title   = s[..titleEnd],
      version = s[titleEnd + 2 .. versionEnd],
      company = s[versionEnd + 2 .. companyEnd], followed by ')'. */
  datatype Groups = Groups(titleEnd: nat, versionEnd: nat, companyEnd: nat)

  /** g cuts s as `<title>, <version> (<company>)<anything>`. */
  predicate Fits(s: string, g: Groups) {
    && g.titleEnd + 2 <= g.versionEnd
    && g.versionEnd + 2 <= g.companyEnd < |s|
    && PairAt(s, g.titleEnd, ',', ' ')
    && PairAt(s, g.versionEnd, ' ', '(')
    && s[g.companyEnd] == ')'
  }

  /** The backtracking engine reaches g no later than h: g's title is longer,
      or equally long with a longer version, or both equal with a company at
      least as long. */
  predicate Prefers(g: Groups, h: Groups) {
    || g.titleEnd > h.titleEnd
    || (g.titleEnd == h.titleEnd && g.versionEnd > h.versionEnd)
    || (g.titleEnd == h.titleEnd && g.versionEnd == h.versionEnd && g.companyEnd >= h.companyEnd)
  }

  /** g is the match the greedy engine reports for s. */
  ghost predicate GreedyFit(s: string, g: Groups) {
    Fits(s, g) && forall h :: Fits(s, h) ==> Prefers(g, h)
  }

  /** There is at most one greedy match. */
  lemma GreedyFitUnique(s: string, g: Groups, h: Groups)
    requires GreedyFit(s, g) && GreedyFit(s, h)
    ensures g == h
  {
    assert Prefers(g, h) && Prefers(h, g);
  }

  function Title(s: string, g: Groups): string
    requires Fits(s, g)
  {
    s[..g.titleEnd]
  }

  function VersionText(s: string, g: Groups): string
    requires Fits(s, g)
  {
    s[g.titleEnd + 2..g.versionEnd]
  }

  function Company(s: string, g: Groups): string
    requires Fits(s, g)
  {
    s[g.versionEnd + 2..g.companyEnd]
  }

  /** The reference format `<title>, <version> (<company>)`. */
  function Compose(title: string, version: string, company: string): string {
    title + ", " + version + " (" + company + ")"
  }

  /** A fit is exactly a decomposition of s in the reference format followed
      by an arbitrary rest. */
  lemma FitsDecomposes(s: string, g: Groups)
    requires Fits(s, g)
    ensures s == Compose(Title(s, g), VersionText(s, g), Company(s, g)) + s[g.companyEnd + 1..]
  {
    var i, j, k := g.titleEnd, g.versionEnd, g.companyEnd;
    assert s == s[..i] + s[i..i + 2] + s[i + 2..j] + s[j..j + 2] + s[j + 2..k] + s[k..k + 1] + s[k + 1..];
    assert s[i..i + 2] == ", " && s[j..j + 2] == " (" && s[k..k + 1] == ")";
  }

  // ---------------------------------------------------------------------------
  // The search: one descending scan per group, innermost group last
  // ---------------------------------------------------------------------------

  /** The fit with title end i and version end j whose company end is the
      largest one below hi. */
  function SearchCompany(s: string, i: nat, j: nat, hi: nat): (m: Option<Groups>)
    requires hi <= |s|
    ensures m.Some? ==> Fits(s, m.value) && m.value.titleEnd == i && m.value.versionEnd == j
                        && m.value.companyEnd < hi
    ensures forall h :: Fits(s, h) && h.titleEnd == i && h.versionEnd == j && h.companyEnd < hi ==>
                        m.Some? && h.companyEnd <= m.value.companyEnd
    decreases hi
  {
    if hi <= j + 2 || i + 2 > j || !PairAt(s, i, ',', ' ') || !PairAt(s, j, ' ', '(') then None
    else if s[hi - 1] == ')' then Some(Groups(i, j, hi - 1))
    else SearchCompany(s, i, j, hi - 1)
  }

  /** The preferred fit with title end i and a version end below hi. */
  function SearchVersion(s: string, i: nat, hi: nat): (m: Option<Groups>)
    requires hi <= |s|
    ensures m.Some? ==> Fits(s, m.value) && m.value.titleEnd == i && m.value.versionEnd < hi
    ensures forall h :: Fits(s, h) && h.titleEnd == i && h.versionEnd < hi ==>
                        m.Some? && Prefers(m.value, h)
    decreases hi
  {
    if hi == 0 then None
    else
      match SearchCompany(s, i, hi - 1, |s|)
      case Some(g) => Some(g)
      case None => SearchVersion(s, i, hi - 1)
  }

  /** The preferred fit with a title end below hi. */
  function SearchTitle(s: string, hi: nat): (m: Option<Groups>)
    requires hi <= |s|
    ensures m.Some? ==> Fits(s, m.value) && m.value.titleEnd < hi
    ensures forall h :: Fits(s, h) && h.titleEnd < hi ==> m.Some? && Prefers(m.value, h)
    decreases hi
  {
    if hi == 0 then None
    else
      match SearchVersion(s, hi - 1, |s|)
      case Some(g) => Some(g)
      case None => SearchTitle(s, hi - 1)
  }

  /** `re.match` of the reference pattern: the greedy match when the string
      has the reference format, None when it has not. */
  function Match(s: string): (m: Option<Groups>)
    ensures m.Some? ==> GreedyFit(s, m.value)
    ensures m.None? ==> forall g :: !Fits(s, g)
  {
    SearchTitle(s, |s|)
  }

  // ---------------------------------------------------------------------------
  // Matching a composed string
  // ---------------------------------------------------------------------------

  /** Where the pieces of a composed string sit. */
  lemma ComposeLayout(t: string, v: string, c: string)
    ensures var s := Compose(t, v, c);
      && |s| == |t| + |v| + |c| + 5
      && (forall k :: 0 <= k < |t| ==> s[k] == t[k])
      && s[|t|] == ',' && s[|t| + 1] == ' '
      && (forall k :: 0 <= k < |v| ==> s[|t| + 2 + k] == v[k])
      && s[|t| + 2 + |v|] == ' ' && s[|t| + 3 + |v|] == '('
      && (forall k :: 0 <= k < |c| ==> s[|t| + 4 + |v| + k] == c[k])
      && s[|s| - 1] == ')'
  {
  }

  /** The fields of the intended cut of a composed string. */
  lemma ComposeFields(t: string, v: string, c: string)
    ensures var s := Compose(t, v, c);
      var g := Groups(|t|, |t| + 2 + |v|, |s| - 1);
      Fits(s, g) && Title(s, g) == t && VersionText(s, g) == v && Company(s, g) == c
  {
    var s := Compose(t, v, c);
    ComposeLayout(t, v, c);
    assert s[..|t|] == t;
    assert s[|t| + 2..|t| + 2 + |v|] == v;
    assert s[|t| + 4 + |v|..|s| - 1] == c;
  }

  /** Between the end of the title and the start of the company a composed
      string has no comma, given a version text without one. */
  lemma NoCommaBeforeCompany(t: string, v: string, c: string, p: nat)
    requires forall k :: 0 <= k < |v| ==> v[k] != ','
    requires |t| < p < |t| + 4 + |v|
    ensures Compose(t, v, c)[p] != ','
  {
    var s := Compose(t, v, c);
    var a := t + ", ";
    assert s == a + v + " (" + c + ")";
    if p < |a| + |v| {
      assert p == |t| + 1 || s[p] == v[p - |a|];
    }
  }

  /** A fit of a composed string whose version group ends beyond the intended
      one, or whose title group does, puts a ` (` inside the company. */
  lemma LaterFitNeedsOpenInCompany(t: string, v: string, c: string, h: Groups)
    requires forall k :: 0 <= k < |v| ==> v[k] != ',' && v[k] != '('
    requires Fits(Compose(t, v, c), h)
    requires h.titleEnd > |t| || (h.titleEnd == |t| && h.versionEnd > |t| + 2 + |v|)
    ensures HasPair(c, ' ', '(')
  {
    var s := Compose(t, v, c);
    var j := |t| + 2 + |v|;
    var front := t + ", " + v + " (";
    assert s == front + c + ")" && |front| == j + 2;
    var p, q := h.titleEnd, h.versionEnd;
    if |t| < p < j + 2 {
      NoCommaBeforeCompany(t, v, c, p);
    }
    assert s[j + 1] == '(';
    assert q >= j + 2;
    assert s[q] == c[q - j - 2] && s[q + 1] == c[q + 1 - j - 2];
    assert PairAt(c, q - j - 2, ' ', '(');
  }

  /** When the version text has no comma and no opening parenthesis and the
      company has no ` (`, the greedy match of the composed string recovers
      the three pieces, whatever the title holds. */
  lemma {:induction false} MatchCompose(t: string, v: string, c: string)
    requires forall k :: 0 <= k < |v| ==> v[k] != ',' && v[k] != '('
    requires !HasPair(c, ' ', '(')
    ensures var s := Compose(t, v, c);
      Match(s) == Some(Groups(|t|, |t| + 2 + |v|, |s| - 1))
  {
    var s := Compose(t, v, c);
    var e := Groups(|t|, |t| + 2 + |v|, |s| - 1);
    ComposeFields(t, v, c);
    var g := Match(s).value;
    assert Prefers(g, e);
    if g.titleEnd > |t| || (g.titleEnd == |t| && g.versionEnd > |t| + 2 + |v|) {
      LaterFitNeedsOpenInCompany(t, v, c, g);
      assert false;
    }
  }

  /** When the company has a ` (`, the greedy match of the composed string
      cannot end its title and version where they were put: either the title
      or the version group runs past the intended ` (`. */
  lemma {:induction false} MatchComposeOpenInCompany(t: string, v: string, c: string)
    requires HasPair(c, ' ', '(')
    ensures var s := Compose(t, v, c);
      && Match(s).Some?
      && (Match(s).value.titleEnd != |t| || Match(s).value.versionEnd > |t| + 3 + |v|)
  {
    var s := Compose(t, v, c);
    var q :| PairAt(c, q, ' ', '(');
    var j := |t| + 2 + |v|;
    var e := Groups(|t|, j + 2 + q, |s| - 1);
    var front := t + ", " + v + " (";
    assert s == front + c + ")" && |front| == j + 2;
    assert s[j + 2 + q] == c[q] && s[j + 3 + q] == c[q + 1];
    assert s[|t|] == ',' && s[|t| + 1] == ' ';
    assert Fits(s, e);
    assert Prefers(Match(s).value, e);
  }
}
