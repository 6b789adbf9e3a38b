/** Semantic version parsing and precedence. */
module Version {
  import opened Text

  const MAX_VERSION_COMPONENTS := 32
  const MAX_VERSION_LENGTH := 256
  const MAX_UINT64 := 0xFFFF_FFFF_FFFF_FFFF

  /** A parsed version; an empty prerelease means a normal version. */
  datatype SemVer = SemVer(major: nat, minor: nat, patch: nat, prerelease: seq<string>)

  // ----- Identifiers -----

  predicate IdentifierChar(c: char)
  {
    IsDigit(c) || 'a' <= c <= 'z' || 'A' <= c <= 'Z' || c == '-'
  }

  predicate AlphanumericID(s: string)
  {
    s != [] && forall i :: 0 <= i < |s| ==> IdentifierChar(s[i])
  }

  predicate NumericID(s: string)
  {
    s != [] && AllDigits(s)
  }

  predicate PrereleaseID(s: string)
  {
    AlphanumericID(s) && (NumericID(s) ==> CanonicalNumeral(s))
  }

  predicate CoreNumber(s: string)
  {
    CanonicalNumeral(s) && Value(s) <= MAX_UINT64
  }

  /** strconv.ParseUint(s, 10, 64) on digits: out of range yields the maximum
      and an error. */
  function ParseUint(s: string): (r: (nat, bool))
    requires AllDigits(s)
  {
    if Value(s) <= MAX_UINT64 then (Value(s), true) else (MAX_UINT64, false)
  }

  method IsNumericID(s: string) returns (ok: bool)
    ensures ok <==> NumericID(s)
  {
    if s == "" { return false; }
    for i := 0 to |s|
      invariant forall k :: 0 <= k < i ==> IsDigit(s[k])
    {
      if s[i] < '0' || s[i] > '9' { return false; }
    }
    return true;
  }

  method IsAlphanumericID(s: string) returns (ok: bool)
    ensures ok <==> AlphanumericID(s)
  {
    if s == "" { return false; }
    for i := 0 to |s|
      invariant forall k :: 0 <= k < i ==> IdentifierChar(s[k])
    {
      var c := s[i];
      if (c < '0' || c > '9') && (c < 'a' || c > 'z') && (c < 'A' || c > 'Z') && c != '-' { return false; }
    }
    return true;
  }

  method IsValidPrereleaseID(id: string) returns (ok: bool)
    ensures ok <==> PrereleaseID(id)
  {
    var numeric := IsNumericID(id);
    if numeric { return |id| <= 1 || id[0] != '0'; }
    ok := IsAlphanumericID(id);
  }

  method ParseNumericID(s: string) returns (n: nat, ok: bool)
    ensures ok <==> CoreNumber(s)
    ensures ok ==> n == Value(s)
  {
    if s == "" { return 0, false; }
    for i := 0 to |s|
      invariant forall k :: 0 <= k < i ==> IsDigit(s[k])
    {
      if s[i] < '0' || s[i] > '9' { return 0, false; }
    }
    if |s| > 1 && s[0] == '0' { return 0, false; }
    var parsed := ParseUint(s);
    if !parsed.1 { return 0, false; }
    return parsed.0, true;
  }

  // ----- The grammar of Semantic Versioning 2.0.0, sections 2, 9 and 10 -----

  predicate BuildIDs(ids: seq<string>)
  {
    ids != [] && forall id :: id in ids ==> AlphanumericID(id)
  }

  predicate PrereleaseIDs(ids: seq<string>)
  {
    ids != [] && 3 + |ids| <= MAX_VERSION_COMPONENTS && forall id :: id in ids ==> PrereleaseID(id)
  }

  /** The parts of a version text: core numbers, prerelease and build
      identifiers. */
  datatype VersionText = VersionText(lead: bool, core: seq<string>, pre: Option<seq<string>>, build: Option<seq<string>>)

  predicate WellFormed(t: VersionText)
  {
    && |t.core| == 3 && CoreNumber(t.core[0]) && CoreNumber(t.core[1]) && CoreNumber(t.core[2])
    && (t.pre.Some? ==> PrereleaseIDs(t.pre.value))
    && (t.build.Some? ==> BuildIDs(t.build.value))
  }

  /** An optional dotted part behind its mark. */
  function RenderPart(mark: char, ids: Option<seq<string>>): string
  {
    if ids.Some? then [mark] + Join(ids.value, '.') else ""
  }

  function RenderBody(t: VersionText): string
  {
    Join(t.core, '.') + RenderPart('-', t.pre) + RenderPart('+', t.build)
  }

  function Render(t: VersionText): string
  {
    if t.lead then "v" + RenderBody(t) else RenderBody(t)
  }

  function Meaning(t: VersionText): SemVer
    requires WellFormed(t)
  {
    SemVer(Value(t.core[0]), Value(t.core[1]), Value(t.core[2]), t.pre.GetOr([]))
  }

  // ----- Parsing -----

  /** The text before the first `c`, and the text after it if there is one. */
  function Cut(s: string, c: char): (string, Option<string>)
  {
    var i := IndexByte(s, c);
    if i < 0 then (s, None) else (s[..i], Some(s[i+1..]))
  }

  function TrimV(s: string): string
  {
    if s != [] && s[0] == 'v' then s[1..] else s
  }

  function SplitPart(s: Option<string>): Option<seq<string>>
  {
    if s.Some? then Some(Split(s.value, '.')) else None
  }

  /** Cuts a text at its first '+', then at its first '-', then at its dots. */
  function Dissect(u: string): VersionText
  {
    var (unbuilt, build) := Cut(TrimV(u), '+');
    var (core, pre) := Cut(unbuilt, '-');
    VersionText(u != [] && u[0] == 'v', Split(core, '.'), SplitPart(pre), SplitPart(build))
  }

  /** The value a version string denotes, if it is accepted. */
  function Parse(v: string): Option<SemVer>
  {
    var u := TrimSpace(v);
    if u == "" || |u| > MAX_VERSION_LENGTH then None
    else
      var t := Dissect(u);
      if WellFormed(t) then Some(Meaning(t)) else None
  }

  method IsValidDotSeparated(s: string, allowLeadingZero: bool) returns (ok: bool)
    ensures ok <==> && BuildIDs(Split(s, '.'))
                    && (allowLeadingZero || forall id :: id in Split(s, '.') ==> PrereleaseID(id))
  {
    var ids := Split(s, '.');
    if s == "" {
      assert ids[0] in ids;
      return false;
    }
    for i := 0 to |ids|
      invariant forall k :: 0 <= k < i ==> AlphanumericID(ids[k]) && (allowLeadingZero || PrereleaseID(ids[k]))
    {
      var alnum := IsAlphanumericID(ids[i]);
      if ids[i] == "" || !alnum { return false; }
      var numeric := IsNumericID(ids[i]);
      assert ids[i] in ids;
      if !allowLeadingZero && numeric && |ids[i]| > 1 && ids[i][0] == '0' { return false; }
    }
    return true;
  }

  method ParsePrerelease(pre: string) returns (ids: seq<string>, ok: bool)
    ensures ok <==> PrereleaseIDs(Split(pre, '.'))
    ensures ok ==> ids == Split(pre, '.')
  {
    ids := Split(pre, '.');
    if pre == "" {
      assert ids[0] in ids;
      return [], false;
    }
    if |ids| == 0 || 3 + |ids| > MAX_VERSION_COMPONENTS { return [], false; }
    for i := 0 to |ids|
      invariant forall k :: 0 <= k < i ==> PrereleaseID(ids[k])
    {
      var valid := IsValidPrereleaseID(ids[i]);
      if ids[i] == "" || !valid { return [], false; }
    }
    return ids, true;
  }

  method ParseVersion(v: string) returns (r: Option<SemVer>)
    ensures r == Parse(v)
  {
    var s := TrimSpace(v);
    if s == "" || |s| > MAX_VERSION_LENGTH { return None; }
    var (unbuilt, build) := Cut(TrimV(s), '+');
    if build.Some? {
      var valid := IsValidDotSeparated(build.value, true);
      if !valid { return None; }
    }
    var (core, pre) := Cut(unbuilt, '-');
    r := ParseCoreAndPrerelease(core, pre, Dissect(s));
  }

  /** The rest of the parse, once the text is cut at its marks. */
  method ParseCoreAndPrerelease(s: string, pre: Option<string>, ghost t: VersionText) returns (r: Option<SemVer>)
    requires t.build.Some? ==> BuildIDs(t.build.value)
    requires t.core == Split(s, '.') && t.pre == SplitPart(pre)
    ensures r == if WellFormed(t) then Some(Meaning(t)) else None
  {
    var core := Split(s, '.');
    if |core| != 3 { return None; }
    var nums: seq<nat> := [];
    for k := 0 to 3
      invariant |nums| == k
      invariant forall m :: 0 <= m < k ==> CoreNumber(core[m]) && nums[m] == Value(core[m])
    {
      var n, ok := ParseNumericID(core[k]);
      if !ok { return None; }
      nums := nums + [n];
    }
    var ids: seq<string> := [];
    if pre.Some? {
      var ok;
      ids, ok := ParsePrerelease(pre.value);
      if !ok { return None; }
    }
    return Some(SemVer(nums[0], nums[1], nums[2], ids));
  }

  // ----- The parser accepts exactly the grammar -----

  lemma CutPart(s: string, c: char)
    ensures var (a, b) := Cut(s, c); s == a + RenderPart(c, SplitPart(b))
  {
    var (a, b) := Cut(s, c);
    if b.Some? {
      JoinSplit(b.value, '.');
      assert s == a + ([c] + b.value);
    }
  }

  lemma DissectRender(u: string)
    ensures Render(Dissect(u)) == u
  {
    var (unbuilt, build) := Cut(TrimV(u), '+');
    var (core, pre) := Cut(unbuilt, '-');
    CutPart(TrimV(u), '+');
    CutPart(unbuilt, '-');
    JoinSplit(core, '.');
    assert RenderBody(Dissect(u)) == TrimV(u);
    assert u != [] && u[0] == 'v' ==> u == "v" + u[1..];
  }

  lemma CutPresent(a: string, c: char, b: string)
    requires c !in a
    ensures Cut(a + [c] + b, c) == (a, Some(b))
  {
    IndexByteAt(a, c, b);
    var s := a + [c] + b;
    assert s[..|a|] == a && s[|a|+1..] == b;
  }

  lemma CutAtPart(a: string, c: char, ids: Option<seq<string>>)
    requires c !in a && Rejoins(ids)
    ensures var (x, y) := Cut(a + RenderPart(c, ids), c);
            x == a && SplitPart(y) == ids
  {
    if ids.Some? {
      CutPresent(a, c, Join(ids.value, '.'));
      assert a + [c] + Join(ids.value, '.') == a + ([c] + Join(ids.value, '.'));
    } else {
      assert a + "" == a;
    }
  }

  ghost predicate Rejoins(ids: Option<seq<string>>)
  {
    ids.Some? ==> Split(Join(ids.value, '.'), '.') == ids.value
  }

  lemma IdentifiersJoin(ids: seq<string>, c: char)
    requires BuildIDs(ids)
    ensures Split(Join(ids, '.'), '.') == ids
    ensures c in Join(ids, '.') ==> c == '.' || IdentifierChar(c)
  {
    SplitJoin(ids, '.');
    if c in Join(ids, '.') { JoinMembers(ids, '.', c); }
  }

  lemma CoreText(t: VersionText)
    requires WellFormed(t)
    ensures var s := Join(t.core, '.');
            && s != [] && s[0] == t.core[0][0] && Split(s, '.') == t.core
            && forall c :: c in s ==> IsDigit(c) || c == '.'
  {
    SplitJoin(t.core, '.');
    var s := Join(t.core, '.');
    forall c | c in s ensures IsDigit(c) || c == '.' {
      JoinMembers(t.core, '.', c);
    }
  }

  lemma DissectAssembled(t: VersionText, core: string, unbuilt: string)
    requires core == Join(t.core, '.') && core != [] && core[0] != 'v' && Split(core, '.') == t.core
    requires unbuilt == core + RenderPart('-', t.pre) && '-' !in core && '+' !in unbuilt
    requires Rejoins(t.pre) && Rejoins(t.build)
    ensures Dissect(Render(t)) == t
  {
    CutAtPart(core, '-', t.pre);
    CutAtPart(unbuilt, '+', t.build);
    assert RenderBody(t) == unbuilt + RenderPart('+', t.build);
    assert RenderBody(t)[0] == core[0];
    assert TrimV(Render(t)) == RenderBody(t);
  }

  lemma RenderDissect(t: VersionText)
    requires WellFormed(t)
    ensures Dissect(Render(t)) == t
  {
    var core := Join(t.core, '.');
    CoreText(t);
    if t.pre.Some? { IdentifiersJoin(t.pre.value, '+'); }
    if t.build.Some? { IdentifiersJoin(t.build.value, '+'); }
    DissectAssembled(t, core, core + RenderPart('-', t.pre));
  }

  lemma RenderNonempty(t: VersionText)
    requires WellFormed(t)
    ensures Render(t) != ""
  {
    CoreText(t);
  }

  lemma ParseComplete(v: string, t: VersionText)
    requires WellFormed(t) && Render(t) == TrimSpace(v) && |Render(t)| <= MAX_VERSION_LENGTH
    ensures Parse(v) == Some(Meaning(t))
  {
    RenderDissect(t);
    RenderNonempty(t);
  }

  /** After trimming, `v` is the text of `t`, within the length bound, and `t`
      means `sv`. */
  predicate Spells(v: string, t: VersionText, sv: SemVer)
  {
    WellFormed(t) && Render(t) == TrimSpace(v) && |Render(t)| <= MAX_VERSION_LENGTH && Meaning(t) == sv
  }

  lemma ParseSound(v: string, sv: SemVer)
    requires Parse(v) == Some(sv)
    ensures Spells(v, Dissect(TrimSpace(v)), sv)
  {
    DissectRender(TrimSpace(v));
  }

  /** The parser accepts exactly the grammar, within its length bound, and
      gives each text its meaning. */
  lemma ParseAcceptsGrammar(v: string, sv: SemVer)
    ensures Parse(v) == Some(sv) <==> exists t :: Spells(v, t, sv)
  {
    if Parse(v) == Some(sv) { ParseSound(v, sv); }
    if t :| Spells(v, t, sv) { ParseComplete(v, t); }
  }

  // ----- Printing -----

  function Print(sv: SemVer): string
  {
    Decimal(sv.major) + "." + Decimal(sv.minor) + "." + Decimal(sv.patch)
    + (if sv.prerelease == [] then "" else "-" + Join(sv.prerelease, '.'))
  }

  lemma {:induction false} JoinedEnd(ids: seq<string>)
    requires BuildIDs(ids)
    ensures var s := Join(ids, '.'); s != [] && IdentifierChar(s[|s|-1])
  {
    assert ids[|ids|-1] in ids && ids[0] in ids;
    if |ids| > 1 { JoinedEnd(ids[1..]); }
  }

  lemma JoinThree(core: seq<string>)
    requires |core| == 3
    ensures Join(core, '.') == core[0] + "." + core[1] + "." + core[2]
  {
    assert core[1..][1..] == [core[2]] && core[1..][0] == core[1];
    assert Join(core[1..], '.') == core[1] + ['.'] + core[2];
  }

  /** The printed core of three canonical numerals is those numerals. */
  lemma PrintCore(a: string, b: string, c: string)
    requires CanonicalNumeral(a) && CanonicalNumeral(b) && CanonicalNumeral(c)
    ensures Decimal(Value(a)) + "." + Decimal(Value(b)) + "." + Decimal(Value(c)) == Join([a, b, c], '.')
  {
    DecimalOfValue(a);
    DecimalOfValue(b);
    DecimalOfValue(c);
    JoinThree([a, b, c]);
  }

  lemma PrintIsRender(t: VersionText)
    requires WellFormed(t)
    ensures Print(Meaning(t)) == Render(t.(lead := false, build := None))
  {
    PrintCore(t.core[0], t.core[1], t.core[2]);
    assert t.core == [t.core[0], t.core[1], t.core[2]];
    var core := Join(t.core, '.');
    assert core + RenderPart('-', t.pre) + "" == core + RenderPart('-', t.pre);
  }

  /** A text that starts with a digit and ends in an identifier character. */
  lemma EdgesTrimmed(s: string)
    requires s != [] && IsDigit(s[0]) && IdentifierChar(s[|s|-1])
    ensures Trimmed(s)
  {
  }

  lemma CoreEdges(core: seq<string>)
    requires |core| == 3 && CoreNumber(core[0]) && CoreNumber(core[1]) && CoreNumber(core[2])
    ensures var s := Join(core, '.'); s != [] && IsDigit(s[0]) && IdentifierChar(s[|s|-1])
  {
    JoinThree(core);
    assert CanonicalNumeral(core[0]) && CanonicalNumeral(core[2]);
    var s := Join(core, '.');
    assert s[0] == core[0][0] && s[|s|-1] == core[2][|core[2]|-1];
  }

  lemma AppendedEdges(core: string, tail: string)
    requires core != [] && IsDigit(core[0]) && tail != [] && IdentifierChar(tail[|tail|-1])
    ensures Trimmed(core + (['-'] + tail))
  {
    var s := core + (['-'] + tail);
    assert s[|s|-1] == tail[|tail|-1];
    EdgesTrimmed(s);
  }

  lemma PlainTrimmed(t: VersionText)
    requires WellFormed(t) && !t.lead && t.build.None?
    ensures Trimmed(Render(t))
  {
    CoreEdges(t.core);
    var core := Join(t.core, '.');
    var tail := RenderPart('-', t.pre);
    assert Render(t) == core + tail;
    if t.pre.Some? {
      JoinedEnd(t.pre.value);
      AppendedEdges(core, Join(t.pre.value, '.'));
    } else {
      assert core + tail == core;
      EdgesTrimmed(core);
    }
  }

  /** Printing an accepted version and parsing it again gives the same value. */
  lemma PrintParse(v: string)
    requires Parse(v).Some?
    ensures Parse(Print(Parse(v).value)) == Parse(v)
  {
    var u := TrimSpace(v);
    DissectRender(u);
    var t := Dissect(u);
    var plain := t.(lead := false, build := None);
    PrintIsRender(t);
    PlainTrimmed(plain);
    assert |Render(plain)| <= |Render(t)|;
    ParseComplete(Print(Parse(v).value), plain);
  }

  // ----- Precedence, as the source computes it -----

  function CmpUint(a: nat, b: nat): int
  {
    if a < b then -1 else if a > b then 1 else 0
  }

  /** strings.Compare. */
  function CompareStrings(a: string, b: string): int
  {
    if a == b then 0 else if StrLess(a, b) then -1 else 1
  }

  function ComparePrereleaseID(a: string, b: string): int
  {
    if NumericID(a) && NumericID(b) then CmpUint(ParseUint(a).0, ParseUint(b).0)
    else if NumericID(a) then -1
    else if NumericID(b) then 1
    else CompareStrings(a, b)
  }

  /** The first pair that differs decides, then the length. */
  function CompareIDs(a: seq<string>, b: seq<string>): int
  {
    if a == [] || b == [] then CmpUint(|a|, |b|)
    else
      var c := ComparePrereleaseID(a[0], b[0]);
      if c != 0 then c else CompareIDs(a[1..], b[1..])
  }

  function ComparePrereleases(a: seq<string>, b: seq<string>): int
  {
    if a == [] && b == [] then 0
    else if a == [] then 1
    else if b == [] then -1
    else CompareIDs(a, b)
  }

  function Compare(a: SemVer, b: SemVer): int
  {
    if CmpUint(a.major, b.major) != 0 then CmpUint(a.major, b.major)
    else if CmpUint(a.minor, b.minor) != 0 then CmpUint(a.minor, b.minor)
    else if CmpUint(a.patch, b.patch) != 0 then CmpUint(a.patch, b.patch)
    else ComparePrereleases(a.prerelease, b.prerelease)
  }

  /** None when either side does not parse. */
  function CompareVersionsStrict(a: string, b: string): Option<int>
  {
    var x, y := Parse(a), Parse(b);
    if x.None? || y.None? then None else Some(Compare(x.value, y.value))
  }

  method ComparePrerelease(a: seq<string>, b: seq<string>) returns (c: int)
    ensures c == ComparePrereleases(a, b)
  {
    if |a| == 0 && |b| == 0 { return 0; }
    if |a| == 0 { return 1; }
    if |b| == 0 { return -1; }
    var n := if |b| < |a| then |b| else |a|;
    assert a[0..] == a && b[0..] == b;
    for i := 0 to n
      invariant CompareIDs(a, b) == CompareIDs(a[i..], b[i..])
    {
      c := ComparePrereleaseID(a[i], b[i]);
      if c != 0 { return c; }
      assert a[i..][1..] == a[i+1..] && b[i..][1..] == b[i+1..];
    }
    return if |a| < |b| then -1 else if |a| > |b| then 1 else 0;
  }

  // ----- A total preorder on all versions -----

  lemma CompareIDAntisymmetric(a: string, b: string)
    ensures ComparePrereleaseID(b, a) == -ComparePrereleaseID(a, b)
  {
    StrLessTrichotomy(a, b);
  }

  lemma CompareIDTransitive(a: string, b: string, c: string)
    requires ComparePrereleaseID(a, b) <= 0 && ComparePrereleaseID(b, c) <= 0
    ensures ComparePrereleaseID(a, c) <= 0
    ensures ComparePrereleaseID(a, c) == 0 <==> ComparePrereleaseID(a, b) == 0 && ComparePrereleaseID(b, c) == 0
  {
    if !NumericID(a) && !NumericID(b) && !NumericID(c) && a != b && b != c {
      StrLessTransitive(a, b, c);
      StrLessTrichotomy(a, c);
    }
  }

  lemma {:induction false} CompareIDsAntisymmetric(a: seq<string>, b: seq<string>)
    ensures CompareIDs(b, a) == -CompareIDs(a, b)
  {
    if a != [] && b != [] {
      CompareIDAntisymmetric(a[0], b[0]);
      CompareIDsAntisymmetric(a[1..], b[1..]);
    }
  }

  lemma {:induction false} CompareIDsTransitive(a: seq<string>, b: seq<string>, c: seq<string>)
    requires CompareIDs(a, b) <= 0 && CompareIDs(b, c) <= 0
    ensures CompareIDs(a, c) <= 0
    ensures CompareIDs(a, c) == 0 ==> CompareIDs(a, b) == 0 && CompareIDs(b, c) == 0
  {
    if a != [] && b != [] && c != [] {
      CompareIDTransitive(a[0], b[0], c[0]);
      if ComparePrereleaseID(a[0], c[0]) == 0 {
        CompareIDsTransitive(a[1..], b[1..], c[1..]);
      }
    }
  }

  /** Sign-antisymmetric, total and transitive, with no bound on identifiers. */
  lemma ComparePreorder(a: SemVer, b: SemVer, c: SemVer)
    ensures Compare(a, b) in {-1, 0, 1}
    ensures Compare(b, a) == -Compare(a, b)
    ensures Compare(a, b) <= 0 && Compare(b, c) <= 0 ==> Compare(a, c) <= 0
    ensures Compare(a, b) < 0 && Compare(b, c) <= 0 ==> Compare(a, c) < 0
    ensures Compare(a, b) <= 0 && Compare(b, c) < 0 ==> Compare(a, c) < 0
  {
    CompareIDsSign(a.prerelease, b.prerelease);
    CompareIDsAntisymmetric(a.prerelease, b.prerelease);
    if CompareIDs(a.prerelease, b.prerelease) <= 0 && CompareIDs(b.prerelease, c.prerelease) <= 0 {
      CompareIDsTransitive(a.prerelease, b.prerelease, c.prerelease);
    }
  }

  lemma {:induction false} CompareIDsSign(a: seq<string>, b: seq<string>)
    ensures CompareIDs(a, b) in {-1, 0, 1}
  {
    if a != [] && b != [] { CompareIDsSign(a[1..], b[1..]); }
  }

  // ----- Precedence of section 11, stated on its own -----

  /** Numeric identifiers compare as unbounded numbers, below all others. */
  predicate StandardIDLess(a: string, b: string)
  {
    if NumericID(a) && NumericID(b) then Value(a) < Value(b)
    else if NumericID(a) then true
    else if NumericID(b) then false
    else StrLess(a, b)
  }

  /** Some first difference decides: an identifier, or the longer list wins. */
  ghost predicate StandardIDsLess(a: seq<string>, b: seq<string>)
  {
    exists k :: 0 <= k <= |a| && DecidedAt(a, b, k)
  }

  ghost predicate DecidedAt(a: seq<string>, b: seq<string>, k: nat)
    requires k <= |a|
  {
    k < |b| && a[..k] == b[..k] && (k < |a| ==> StandardIDLess(a[k], b[k]))
  }

  ghost predicate StandardLess(a: SemVer, b: SemVer)
  {
    if a.major != b.major then a.major < b.major
    else if a.minor != b.minor then a.minor < b.minor
    else if a.patch != b.patch then a.patch < b.patch
    else if a.prerelease == [] then false
    else b.prerelease == [] || StandardIDsLess(a.prerelease, b.prerelease)
  }

  /** Both identifiers are numbers that ParseUint cannot tell apart from the
      largest 64-bit value. */
  predicate Saturates(a: string, b: string)
  {
    NumericID(a) && NumericID(b) && a != b && Value(a) >= MAX_UINT64 && Value(b) >= MAX_UINT64
  }

  lemma NumeralsByValue(a: string, b: string)
    requires PrereleaseID(a) && PrereleaseID(b) && NumericID(a) && NumericID(b)
    ensures Value(a) == Value(b) <==> a == b
  {
    DecimalOfValue(a);
    DecimalOfValue(b);
  }

  /** On one identifier pair the code agrees with the standard exactly when it
      does not saturate. */
  lemma IDAgreesIff(a: string, b: string)
    requires PrereleaseID(a) && PrereleaseID(b)
    ensures !Saturates(a, b) <==>
            && (ComparePrereleaseID(a, b) < 0 <==> StandardIDLess(a, b))
            && (ComparePrereleaseID(a, b) > 0 <==> StandardIDLess(b, a))
            && (ComparePrereleaseID(a, b) == 0 <==> a == b)
  {
    StrLessTrichotomy(a, b);
    if NumericID(a) && NumericID(b) { NumeralsByValue(a, b); }
  }

  ghost predicate ValidIDs(ids: seq<string>)
  {
    forall id :: id in ids ==> PrereleaseID(id)
  }

  /** The first pair of different identifiers saturates. */
  predicate Clash(a: seq<string>, b: seq<string>)
  {
    a != [] && b != [] && (if a[0] == b[0] then Clash(a[1..], b[1..]) else Saturates(a[0], b[0]))
  }

  lemma StandardIDsStep(a: seq<string>, b: seq<string>)
    requires a != [] && b != []
    ensures StandardIDsLess(a, b) <==>
            if a[0] == b[0] then StandardIDsLess(a[1..], b[1..]) else StandardIDLess(a[0], b[0])
  {
    StrLessTrichotomy(a[0], a[0]);
    if a[0] == b[0] {
      if k :| 0 <= k <= |a[1..]| && DecidedAt(a[1..], b[1..], k) {
        assert a[..k+1] == [a[0]] + a[1..][..k] && b[..k+1] == [b[0]] + b[1..][..k];
        assert DecidedAt(a, b, k + 1);
      }
      if k :| 0 <= k <= |a| && DecidedAt(a, b, k) {
        assert k > 0;
        assert a[1..][..k-1] == a[..k][1..] && b[1..][..k-1] == b[..k][1..];
        assert DecidedAt(a[1..], b[1..], k - 1);
      }
    } else {
      if StandardIDLess(a[0], b[0]) { assert DecidedAt(a, b, 0); }
      forall k | 0 < k <= |a| ensures !DecidedAt(a, b, k) { HeadsDecide(a, b, k); }
    }
  }

  lemma HeadsDecide(a: seq<string>, b: seq<string>, k: nat)
    requires 0 < k <= |a| && b != [] && a[0] != b[0]
    ensures !DecidedAt(a, b, k)
  {
    if k <= |b| { assert a[..k][0] == a[0] && b[..k][0] == b[0]; }
  }

  lemma {:induction false} IDsAgree(a: seq<string>, b: seq<string>)
    requires ValidIDs(a) && ValidIDs(b) && !Clash(a, b)
    ensures CompareIDs(a, b) < 0 <==> StandardIDsLess(a, b)
    ensures CompareIDs(a, b) > 0 <==> StandardIDsLess(b, a)
    ensures CompareIDs(a, b) == 0 <==> a == b
  {
    if a == [] || b == [] {
      if b != [] { assert DecidedAt(a, b, 0); }
      if a != [] { assert DecidedAt(b, a, 0); }
    } else {
      StandardIDsStep(a, b);
      StandardIDsStep(b, a);
      assert a[0] in a && b[0] in b;
      IDAgreesIff(a[0], b[0]);
      if a[0] == b[0] { IDsAgree(a[1..], b[1..]); }
      assert a == [a[0]] + a[1..] && b == [b[0]] + b[1..];
    }
  }

  /** Two versions whose first different identifiers both saturate. */
  predicate VersionsClash(a: SemVer, b: SemVer)
  {
    && a.major == b.major && a.minor == b.minor && a.patch == b.patch
    && Clash(a.prerelease, b.prerelease)
  }

  /** Without a clash the code computes the precedence of section 11, and
      returns 0 only for equal versions. */
  lemma CompareIsStandard(a: SemVer, b: SemVer)
    requires ValidIDs(a.prerelease) && ValidIDs(b.prerelease) && !VersionsClash(a, b)
    ensures Compare(a, b) < 0 <==> StandardLess(a, b)
    ensures Compare(a, b) > 0 <==> StandardLess(b, a)
    ensures Compare(a, b) == 0 <==> a == b
  {
    if a.major == b.major && a.minor == b.minor && a.patch == b.patch {
      IDsAgree(a.prerelease, b.prerelease);
    }
  }

  /** Numeric identifiers below 2^64 never clash. */
  lemma {:induction false} SmallNumbersDoNotClash(a: seq<string>, b: seq<string>)
    requires ValidIDs(a) && ValidIDs(b)
    requires forall id :: id in a && NumericID(id) ==> Value(id) <= MAX_UINT64
    requires forall id :: id in b && NumericID(id) ==> Value(id) <= MAX_UINT64
    ensures !Clash(a, b)
  {
    if a != [] && b != [] {
      assert a[0] in a && b[0] in b;
      if a[0] == b[0] {
        SmallNumbersDoNotClash(a[1..], b[1..]);
      } else if NumericID(a[0]) && NumericID(b[0]) {
        NumeralsByValue(a[0], b[0]);
      }
    }
  }

  /** With a clash the standard is decided by the clashing pair but the code by
      what follows it, so they agree only when what follows happens to fall
      the same way. */
  lemma {:induction false} ClashDecidedByRest(a: seq<string>, b: seq<string>) returns (k: nat)
    requires ValidIDs(a) && ValidIDs(b) && Clash(a, b)
    ensures k < |a| && k < |b| && a[..k] == b[..k] && Saturates(a[k], b[k])
    ensures CompareIDs(a, b) == CompareIDs(a[k+1..], b[k+1..])
    ensures StandardIDsLess(a, b) <==> Value(a[k]) < Value(b[k])
    ensures StandardIDsLess(b, a) <==> Value(b[k]) < Value(a[k])
    ensures Value(a[k]) != Value(b[k])
  {
    StandardIDsStep(a, b);
    StandardIDsStep(b, a);
    if a[0] == b[0] {
      CompareIDAntisymmetric(a[0], b[0]);
      k := ClashDecidedByRest(a[1..], b[1..]);
      ShiftEqualHeads(a, b, k);
      k := k + 1;
    } else {
      assert a[0] in a && b[0] in b;
      NumeralsByValue(a[0], b[0]);
      k := 0;
    }
  }

  lemma ShiftEqualHeads(a: seq<string>, b: seq<string>, k: nat)
    requires a != [] && b != [] && a[0] == b[0] && k < |a[1..]| && k < |b[1..]| && a[1..][..k] == b[1..][..k]
    ensures a[..k+1] == b[..k+1] && a[1..][k] == a[k+1] && b[1..][k] == b[k+1]
    ensures a[1..][k+1..] == a[k+2..] && b[1..][k+1..] == b[k+2..]
  {
    assert a[..k+1] == [a[0]] + a[1..][..k] && b[..k+1] == [b[0]] + b[1..][..k];
  }

  // ----- The order the code computes, on every pair -----

  /** A numeric identifier as ParseUint sees it. */
  function Capped(id: string): string
  {
    if NumericID(id) && Value(id) > MAX_UINT64 then Decimal(MAX_UINT64) else id
  }

  function CapIDs(ids: seq<string>): (r: seq<string>)
    ensures |r| == |ids| && forall i :: 0 <= i < |r| ==> r[i] == Capped(ids[i])
  {
    seq(|ids|, i requires 0 <= i < |ids| => Capped(ids[i]))
  }

  function Cap(v: SemVer): SemVer
  {
    v.(prerelease := CapIDs(v.prerelease))
  }

  lemma CappedID(id: string)
    requires PrereleaseID(id)
    ensures PrereleaseID(Capped(id)) && (NumericID(Capped(id)) <==> NumericID(id))
    ensures NumericID(id) ==> Value(Capped(id)) <= MAX_UINT64 && ParseUint(Capped(id)).0 == ParseUint(id).0
  {
    ValueOfDecimal(MAX_UINT64);
  }

  lemma CappedValid(ids: seq<string>)
    requires ValidIDs(ids)
    ensures ValidIDs(CapIDs(ids)) && forall id :: id in CapIDs(ids) && NumericID(id) ==> Value(id) <= MAX_UINT64
  {
    forall id | id in CapIDs(ids) ensures PrereleaseID(id) && (NumericID(id) ==> Value(id) <= MAX_UINT64) {
      var i :| 0 <= i < |ids| && id == Capped(ids[i]);
      assert ids[i] in ids;
      CappedID(ids[i]);
    }
  }

  lemma CompareCappedID(a: string, b: string)
    requires PrereleaseID(a) && PrereleaseID(b)
    ensures ComparePrereleaseID(Capped(a), Capped(b)) == ComparePrereleaseID(a, b)
  {
    CappedID(a);
    CappedID(b);
  }

  /** Lists that compare alike at every position compare alike. */
  lemma {:induction false} CompareAlike(a: seq<string>, b: seq<string>, a': seq<string>, b': seq<string>)
    requires |a| == |a'| && |b| == |b'|
    requires forall i :: 0 <= i < |a| && i < |b| ==> ComparePrereleaseID(a[i], b[i]) == ComparePrereleaseID(a'[i], b'[i])
    ensures CompareIDs(a, b) == CompareIDs(a', b')
  {
    if a != [] && b != [] {
      assert ComparePrereleaseID(a[0], b[0]) == ComparePrereleaseID(a'[0], b'[0]);
      CompareAlike(a[1..], b[1..], a'[1..], b'[1..]);
    }
  }

  lemma CompareCapped(a: seq<string>, b: seq<string>)
    requires ValidIDs(a) && ValidIDs(b)
    ensures CompareIDs(CapIDs(a), CapIDs(b)) == CompareIDs(a, b)
  {
    forall i | 0 <= i < |a| && i < |b|
      ensures ComparePrereleaseID(a[i], b[i]) == ComparePrereleaseID(CapIDs(a)[i], CapIDs(b)[i])
    {
      assert a[i] in a && b[i] in b;
      CompareCappedID(a[i], b[i]);
    }
    CompareAlike(a, b, CapIDs(a), CapIDs(b));
  }

  lemma CompareIDsIsStandardOnCapped(a: seq<string>, b: seq<string>)
    requires ValidIDs(a) && ValidIDs(b)
    ensures CompareIDs(a, b) < 0 <==> StandardIDsLess(CapIDs(a), CapIDs(b))
    ensures CompareIDs(a, b) > 0 <==> StandardIDsLess(CapIDs(b), CapIDs(a))
    ensures CompareIDs(a, b) == 0 <==> CapIDs(a) == CapIDs(b)
  {
    CappedValid(a);
    CappedValid(b);
    CompareCapped(a, b);
    SmallNumbersDoNotClash(CapIDs(a), CapIDs(b));
    IDsAgree(CapIDs(a), CapIDs(b));
  }

  /** On every pair of accepted versions the code computes the precedence of
      section 11, with each numeric identifier read as at most 2^64 - 1. */
  lemma CompareIsStandardOnCapped(a: SemVer, b: SemVer)
    requires ValidIDs(a.prerelease) && ValidIDs(b.prerelease)
    ensures Compare(a, b) < 0 <==> StandardLess(Cap(a), Cap(b))
    ensures Compare(a, b) > 0 <==> StandardLess(Cap(b), Cap(a))
    ensures Compare(a, b) == 0 <==> Cap(a) == Cap(b)
  {
    CappedValid(a.prerelease);
    CappedValid(b.prerelease);
    SmallNumbersDoNotClash(Cap(a).prerelease, Cap(b).prerelease);
    CompareIsStandard(Cap(a), Cap(b));
    CompareCapped(a.prerelease, b.prerelease);
  }

  /** What follows the clashing pair, read that way, happens to fall the way the
      pair does. */
  ghost predicate RestFollowsClash(a: seq<string>, b: seq<string>)
    requires Clash(a, b)
  {
    if a[0] == b[0] then RestFollowsClash(a[1..], b[1..])
    else if Value(a[0]) < Value(b[0]) then StandardIDsLess(CapIDs(a[1..]), CapIDs(b[1..]))
    else StandardIDsLess(CapIDs(b[1..]), CapIDs(a[1..]))
  }

  lemma {:induction false} RestFollowsExactly(a: seq<string>, b: seq<string>)
    requires ValidIDs(a) && ValidIDs(b) && Clash(a, b)
    ensures (CompareIDs(a, b) < 0 <==> StandardIDsLess(a, b)) && (CompareIDs(a, b) > 0 <==> StandardIDsLess(b, a))
            <==> RestFollowsClash(a, b)
    ensures a != b && (RestFollowsClash(a, b) ==> CompareIDs(a, b) != 0)
  {
    StandardIDsStep(a, b);
    StandardIDsStep(b, a);
    if a[0] == b[0] {
      CompareIDAntisymmetric(a[0], b[0]);
      RestFollowsExactly(a[1..], b[1..]);
    } else {
      assert a[0] in a && b[0] in b;
      NumeralsByValue(a[0], b[0]);
      CompareIDsIsStandardOnCapped(a[1..], b[1..]);
    }
  }

  /** The code computes the precedence of section 11, and 0 only for equal
      versions, exactly for these pairs. */
  lemma CompareIsStandardExactly(a: SemVer, b: SemVer)
    requires ValidIDs(a.prerelease) && ValidIDs(b.prerelease)
    ensures && (Compare(a, b) < 0 <==> StandardLess(a, b))
            && (Compare(a, b) > 0 <==> StandardLess(b, a))
            && (Compare(a, b) == 0 <==> a == b)
            <==> !VersionsClash(a, b) || RestFollowsClash(a.prerelease, b.prerelease)
  {
    if VersionsClash(a, b) {
      RestFollowsExactly(a.prerelease, b.prerelease);
    } else {
      CompareIsStandard(a, b);
    }
  }

  /** A concrete clash: 2^64 and 2^64 + 1 compare equal. */
  lemma SaturationExample()
    ensures var a, b := Decimal(MAX_UINT64 + 1), Decimal(MAX_UINT64 + 2);
            && PrereleaseID(a) && PrereleaseID(b) && StandardIDLess(a, b)
            && Compare(SemVer(1, 0, 0, [a]), SemVer(1, 0, 0, [b])) == 0
            && StandardLess(SemVer(1, 0, 0, [a]), SemVer(1, 0, 0, [b]))
  {
    var a, b := Decimal(MAX_UINT64 + 1), Decimal(MAX_UINT64 + 2);
    ValueOfDecimal(MAX_UINT64 + 1);
    ValueOfDecimal(MAX_UINT64 + 2);
    assert ParseUint(a).0 == ParseUint(b).0;
    assert [a][1..] == [] && [b][1..] == [];
    assert CompareIDs([], []) == 0;
    assert DecidedAt([a], [b], 0);
  }

  // ----- Bounds on versions, in terms of the standard -----

  /** Both parse, and `v` has no higher precedence than `bound`. */
  ghost predicate NotAbove(v: string, bound: string)
  {
    Parse(v).Some? && Parse(bound).Some? && !StandardLess(Cap(Parse(bound).value), Cap(Parse(v).value))
  }

  ghost predicate NotBelow(v: string, bound: string)
  {
    Parse(v).Some? && Parse(bound).Some? && !StandardLess(Cap(Parse(v).value), Cap(Parse(bound).value))
  }

  lemma ParsedIDs(v: string)
    requires Parse(v).Some?
    ensures ValidIDs(Parse(v).value.prerelease)
  {
    ParseSound(v, Parse(v).value);
    MeaningIDs(Dissect(TrimSpace(v)));
  }

  lemma MeaningIDs(t: VersionText)
    requires WellFormed(t)
    ensures ValidIDs(Meaning(t).prerelease)
  {
  }

  /** The strict comparison of two texts: the first against the second. */
  lemma StrictComparison(a: string, b: string)
    ensures var c := CompareVersionsStrict(a, b);
            && (c.Some? && c.value <= 0 <==> NotAbove(a, b))
            && (c.Some? && c.value >= 0 <==> NotBelow(a, b))
  {
    if Parse(a).Some? && Parse(b).Some? {
      ParsedIDs(a);
      ParsedIDs(b);
      CompareIsStandardOnCapped(Parse(a).value, Parse(b).value);
    }
  }
}
