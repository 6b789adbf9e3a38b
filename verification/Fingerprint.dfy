/** Device fingerprints: normalization, the canonical serialization that gets
    hashed, and the choice of the primary component. */
module Fingerprint {
  import opened Text

  datatype Component = Component(category: string, value: string)

  // ----- Normalization -----

  /** strings.ToLower, given the lower case of each character. */
  function ToLower(s: string, lower: char -> char): (r: string)
    ensures |r| == |s|
  {
    if s == [] then [] else [lower(s[0])] + ToLower(s[1..], lower)
  }

  function WordLength(s: string): (n: nat)
    ensures n <= |s| && forall i :: 0 <= i < n ==> !IsSpace(s[i])
    ensures s != [] && !IsSpace(s[0]) ==> n > 0
  {
    if s == [] || IsSpace(s[0]) then 0 else 1 + WordLength(s[1..])
  }

  /** strings.Fields: the maximal runs without white space. */
  function Fields(s: string): (r: seq<string>)
    ensures forall w, i :: w in r && 0 <= i < |w| ==> !IsSpace(w[i])
    decreases |s|
  {
    if s == [] then []
    else if IsSpace(s[0]) then Fields(s[1..])
    else [s[..WordLength(s)]] + Fields(s[WordLength(s)..])
  }

  function Normalize(s: string, lower: char -> char): string
  {
    Join(Fields(ToLower(TrimSpace(s), lower)), ' ')
  }

  function Normalizer(lower: char -> char): string -> string
  {
    s => Normalize(s, lower)
  }

  /** The only white space a normalized value contains is the plain space. */
  lemma NormalizedHasNoNewline(s: string, lower: char -> char)
    ensures forall c :: c in Normalize(s, lower) && IsSpace(c) ==> c == ' '
    ensures '\n' !in Normalize(s, lower)
  {
    var words := Fields(ToLower(TrimSpace(s), lower));
    forall c | c in Normalize(s, lower) && IsSpace(c) ensures c == ' ' {
      JoinMembers(words, ' ', c);
    }
  }

  // ----- What normalization makes of any text -----

  /** A nonempty run without white space. */
  predicate IsWord(w: string)
  {
    w != [] && forall i :: 0 <= i < |w| ==> !IsSpace(w[i])
  }

  predicate IsGap(g: string)
  {
    g != [] && AllSpace(g)
  }

  /** Words with gaps between them. */
  function Phrase(words: seq<string>, gaps: seq<string>): string
    requires |words| <= |gaps| + 1
  {
    if words == [] then "" else if |words| == 1 then words[0] else words[0] + gaps[0] + Phrase(words[1..], gaps[1..])
  }

  predicate WellSpaced(words: seq<string>, gaps: seq<string>)
  {
    |words| <= |gaps| + 1 && (forall w :: w in words ==> IsWord(w)) && (forall g :: g in gaps ==> IsGap(g))
  }

  function LowerAll(ss: seq<string>, lower: char -> char): (r: seq<string>)
    ensures |r| == |ss| && forall i :: 0 <= i < |r| ==> r[i] == ToLower(ss[i], lower)
  {
    if ss == [] then [] else [ToLower(ss[0], lower)] + LowerAll(ss[1..], lower)
  }

  /** Lower-casing moves no character into or out of white space. */
  ghost predicate KeepsSpace(lower: char -> char)
  {
    forall c :: IsSpace(lower(c)) <==> IsSpace(c)
  }

  lemma {:induction false} ToLowerAt(s: string, lower: char -> char, i: nat)
    requires i < |s|
    ensures ToLower(s, lower)[i] == lower(s[i])
  {
    if i > 0 { ToLowerAt(s[1..], lower, i - 1); }
  }

  lemma {:induction false} ToLowerConcat(a: string, b: string, lower: char -> char)
    ensures ToLower(a + b, lower) == ToLower(a, lower) + ToLower(b, lower)
  {
    if a == [] {
      assert a + b == b;
    } else {
      assert (a + b)[0] == a[0] && (a + b)[1..] == a[1..] + b;
      ToLowerConcat(a[1..], b, lower);
    }
  }

  lemma LoweredWord(w: string, lower: char -> char)
    requires KeepsSpace(lower)
    ensures IsWord(w) ==> IsWord(ToLower(w, lower))
    ensures IsGap(w) ==> IsGap(ToLower(w, lower))
  {
    forall i | 0 <= i < |w| ensures IsSpace(ToLower(w, lower)[i]) <==> IsSpace(w[i]) { ToLowerAt(w, lower, i); }
  }

  lemma LoweredSpacing(words: seq<string>, gaps: seq<string>, lower: char -> char)
    requires KeepsSpace(lower) && WellSpaced(words, gaps)
    ensures WellSpaced(LowerAll(words, lower), LowerAll(gaps, lower))
  {
    forall w | w in LowerAll(words, lower) ensures IsWord(w) {
      var i :| 0 <= i < |words| && w == ToLower(words[i], lower);
      assert words[i] in words;
      LoweredWord(words[i], lower);
    }
    forall g | g in LowerAll(gaps, lower) ensures IsGap(g) {
      var i :| 0 <= i < |gaps| && g == ToLower(gaps[i], lower);
      assert gaps[i] in gaps;
      LoweredWord(gaps[i], lower);
    }
  }

  lemma {:induction false} LoweredPhrase(words: seq<string>, gaps: seq<string>, lower: char -> char)
    requires |words| <= |gaps| + 1
    ensures ToLower(Phrase(words, gaps), lower) == Phrase(LowerAll(words, lower), LowerAll(gaps, lower))
  {
    if |words| > 1 {
      var rest := Phrase(words[1..], gaps[1..]);
      ToLowerConcat(words[0] + gaps[0], rest, lower);
      ToLowerConcat(words[0], gaps[0], lower);
      LoweredPhrase(words[1..], gaps[1..], lower);
      assert LowerAll(words, lower)[1..] == LowerAll(words[1..], lower) && LowerAll(gaps, lower)[1..] == LowerAll(gaps[1..], lower);
    }
  }

  lemma {:induction false} WordAhead(w: string, rest: string)
    requires IsWord(w) && (rest == [] || IsSpace(rest[0]))
    ensures WordLength(w + rest) == |w|
  {
    if |w| == 1 {
      assert (w + rest)[1..] == rest && (w + rest)[0] == w[0];
    } else {
      assert (w + rest)[1..] == w[1..] + rest && (w + rest)[0] == w[0];
      WordAhead(w[1..], rest);
    }
  }

  lemma {:induction false} FieldsSkip(g: string, x: string)
    requires AllSpace(g)
    ensures Fields(g + x) == Fields(x)
  {
    if g == [] {
      assert g + x == x;
    } else {
      assert (g + x)[0] == g[0] && (g + x)[1..] == g[1..] + x;
      FieldsSkip(g[1..], x);
    }
  }

  lemma FieldsWord(w: string, rest: string)
    requires IsWord(w) && (rest == [] || IsSpace(rest[0]))
    ensures Fields(w + rest) == [w] + Fields(rest)
  {
    WordAhead(w, rest);
    assert (w + rest)[0] == w[0] && (w + rest)[..|w|] == w && (w + rest)[|w|..] == rest;
  }

  /** Splitting a well-spaced phrase gives its words. */
  lemma {:induction false} FieldsOfPhrase(words: seq<string>, gaps: seq<string>)
    requires WellSpaced(words, gaps)
    ensures Fields(Phrase(words, gaps)) == words
  {
    if |words| == 1 {
      assert words[0] in words && words[0] + [] == words[0];
      FieldsWord(words[0], []);
    } else if |words| > 1 {
      assert words[0] in words && gaps[0] in gaps;
      var rest := Phrase(words[1..], gaps[1..]);
      assert words[0] + gaps[0] + rest == words[0] + (gaps[0] + rest);
      FieldsWord(words[0], gaps[0] + rest);
      FieldsSkip(gaps[0], rest);
      FieldsOfPhrase(words[1..], gaps[1..]);
    }
  }

  lemma {:induction false} PhraseTrimmed(words: seq<string>, gaps: seq<string>)
    requires WellSpaced(words, gaps)
    ensures Trimmed(Phrase(words, gaps)) && (words != [] ==> Phrase(words, gaps) != [])
  {
    if words != [] { assert words[0] in words; }
    if |words| > 1 {
      PhraseTrimmed(words[1..], gaps[1..]);
      var rest := Phrase(words[1..], gaps[1..]);
      assert Phrase(words, gaps)[0] == words[0][0];
      assert Phrase(words, gaps)[|Phrase(words, gaps)|-1] == rest[|rest|-1];
    }
  }

  /** Any words, with any white space around and between them, become the
      lower-case words separated by single spaces. */
  lemma NormalizeExactly(lead: string, words: seq<string>, gaps: seq<string>, trail: string, lower: char -> char)
    requires AllSpace(lead) && AllSpace(trail) && WellSpaced(words, gaps) && KeepsSpace(lower)
    ensures Normalize(lead + Phrase(words, gaps) + trail, lower) == Join(LowerAll(words, lower), ' ')
  {
    PhraseTrimmed(words, gaps);
    TrimSpaceExactly(lead, Phrase(words, gaps), trail);
    LoweredPhrase(words, gaps, lower);
    LoweredSpacing(words, gaps, lower);
    FieldsOfPhrase(LowerAll(words, lower), LowerAll(gaps, lower));
  }

  // ----- The canonical form -----

  type Pair = (string, string)

  /** By category, then by value. */
  predicate PairAtMost(a: Pair, b: Pair)
  {
    if a.0 != b.0 then StrLess(a.0, b.0) else StrAtMost(a.1, b.1)
  }

  lemma PairOrderIsTotal()
    ensures TotalOrder(PairAtMost)
  {
    forall a: Pair, b: Pair
      ensures PairAtMost(a, b) || PairAtMost(b, a)
      ensures PairAtMost(a, b) && PairAtMost(b, a) ==> a == b
    {
      StrLessTrichotomy(a.0, b.0);
      StrLessTrichotomy(a.1, b.1);
    }
    forall a: Pair, b: Pair, c: Pair | PairAtMost(a, b) && PairAtMost(b, c) ensures PairAtMost(a, c) {
      StrLessTrichotomy(a.0, c.0);
      if StrLess(a.0, b.0) && StrLess(b.0, c.0) { StrLessTransitive(a.0, b.0, c.0); }
      if StrLess(a.1, b.1) && StrLess(b.1, c.1) { StrLessTransitive(a.1, b.1, c.1); }
    }
  }

  /** The usable components, normalized, in collection order. */
  function Usable(components: seq<Component>, normal: string -> string): seq<Pair>
  {
    if components == [] then []
    else
      var v := normal(components[0].value);
      (if v == "" then [] else [(components[0].category, v)]) + Usable(components[1..], normal)
  }

  function Line(p: Pair): string { p.0 + "=" + p.1 }

  function Lines(pairs: seq<Pair>): (r: seq<string>)
    ensures |r| == |pairs| && forall i :: 0 <= i < |r| ==> r[i] == Line(pairs[i])
  {
    if pairs == [] then [] else [Line(pairs[0])] + Lines(pairs[1..])
  }

  function Serialize(namespace: string, pairs: seq<Pair>): string
  {
    namespace + "\0" + Join(Lines(pairs), '\n')
  }

  /** The canonical string and the sorted distinct categories; None when no
      usable component remains. */
  function CanonicalForm(namespace: string, components: seq<Component>, normal: string -> string): Option<(string, seq<string>)>
  {
    var pairs := Usable(components, normal);
    if pairs == [] then None
    else Some((Serialize(namespace, Sort(pairs, PairAtMost)), SortedKeys(CategorySet(pairs))))
  }

  /** What is still to be written from line `i` on. */
  function LinesFrom(pairs: seq<Pair>, i: nat): string
    requires i <= |pairs|
  {
    if i == |pairs| then "" else (if i > 0 then "\n" else "") + Join(Lines(pairs[i..]), '\n')
  }

  /** What writing line `i` adds. */
  function LineText(pairs: seq<Pair>, i: nat): string
    requires i < |pairs|
  {
    (if i > 0 then "\n" else "") + Line(pairs[i])
  }

  lemma LinesStep(pairs: seq<Pair>, i: nat)
    requires i < |pairs|
    ensures LinesFrom(pairs, i) == LineText(pairs, i) + LinesFrom(pairs, i + 1)
  {
    LinesCons(pairs, i);
    assert pairs[i+1..] == [] <==> i + 1 == |pairs|;
    JoinCons(Line(pairs[i]), Lines(pairs[i+1..]), '\n');
  }

  lemma LinesCons(pairs: seq<Pair>, i: nat)
    requires i < |pairs|
    ensures Lines(pairs[i..]) == [Line(pairs[i])] + Lines(pairs[i+1..])
  {
    assert pairs[i..][1..] == pairs[i+1..];
  }

  lemma JoinCons(p: string, rest: seq<string>, sep: char)
    ensures Join([p] + rest, sep) == p + (if rest == [] then "" else [sep] + Join(rest, sep))
  {
    assert ([p] + rest)[1..] == rest;
  }

  function CategorySet(pairs: seq<Pair>): set<string>
  {
    set p | p in pairs :: p.0
  }

  /** What one component contributes. */
  function UsablePart(c: Component, normal: string -> string): seq<Pair>
  {
    if normal(c.value) == "" then [] else [(c.category, normal(c.value))]
  }

  lemma UsableSnoc(components: seq<Component>, i: nat, normal: string -> string)
    requires i < |components|
    ensures Usable(components[..i+1], normal) == Usable(components[..i], normal) + UsablePart(components[i], normal)
  {
    assert components[..i+1] == components[..i] + [components[i]];
    UsableConcat(components[..i], [components[i]], normal);
  }

  /** `categories` lists, without repetition, the categories of `pairs`. */
  predicate ListsCategories(categories: seq<string>, pairs: seq<Pair>)
  {
    multiset(categories) == multiset(CategorySet(pairs))
  }

  /** The usable pairs, and their categories in order of first occurrence. */
  method CollectUsable(components: seq<Component>, normal: string -> string) returns (norm: seq<Pair>, categories: seq<string>)
    ensures norm == Usable(components, normal)
    ensures ListsCategories(categories, norm)
  {
    var seen: set<string> := {};
    norm, categories := [], [];
    for i := 0 to |components|
      invariant norm == Usable(components[..i], normal)
      invariant seen == CategorySet(norm)
      invariant ListsCategories(categories, norm)
    {
      UsableSnoc(components, i, normal);
      var v := normal(components[i].value);
      if v == "" { continue; }
      var p := (components[i].category, v);
      AddPair(norm, p);
      ListPair(categories, norm, p);
      norm := norm + [p];
      if p.0 !in seen {
        seen := seen + {p.0};
        categories := categories + [p.0];
      }
    }
    assert components[..|components|] == components;
  }

  lemma AddPair(pairs: seq<Pair>, p: Pair)
    ensures CategorySet(pairs + [p]) == CategorySet(pairs) + {p.0}
    ensures p.0 in CategorySet(pairs) ==> CategorySet(pairs + [p]) == CategorySet(pairs)
  {
    forall c | c in CategorySet(pairs) + {p.0} ensures c in CategorySet(pairs + [p]) {
      if c == p.0 {
        assert p in pairs + [p];
      } else {
        var q :| q in pairs && q.0 == c;
        assert q in pairs + [p];
      }
    }
  }

  lemma ListPair(categories: seq<string>, pairs: seq<Pair>, p: Pair)
    requires ListsCategories(categories, pairs)
    ensures p.0 in CategorySet(pairs) ==> ListsCategories(categories, pairs + [p])
    ensures p.0 !in CategorySet(pairs) ==> ListsCategories(categories + [p.0], pairs + [p])
  {
    AddPair(pairs, p);
  }

  lemma LinesStart(pairs: seq<Pair>)
    ensures LinesFrom(pairs, 0) == Join(Lines(pairs), '\n') && LinesFrom(pairs, |pairs|) == ""
  {
    assert pairs[0..] == pairs;
  }

  /** Writes namespace, NUL and one line per pair. */
  method WriteLines(namespace: string, norm: seq<Pair>) returns (b: string)
    ensures b == Serialize(namespace, norm)
  {
    b := namespace + "\0";
    ghost var goal := Serialize(namespace, norm);
    LinesStart(norm);
    for i := 0 to |norm|
      invariant b + LinesFrom(norm, i) == goal
    {
      LinesStep(norm, i);
      b := WriteLine(b, norm, i);
    }
  }

  method WriteLine(before: string, norm: seq<Pair>, i: nat) returns (b: string)
    requires i < |norm|
    ensures b == before + LineText(norm, i)
  {
    b := before;
    if i > 0 { b := b + "\n"; }
    b := b + norm[i].0;
    b := b + "=";
    b := b + norm[i].1;
  }

  method BuildCanonicalForm(namespace: string, components: seq<Component>, normal: string -> string)
    returns (r: Option<(string, seq<string>)>)
    ensures r == CanonicalForm(namespace, components, normal)
  {
    var norm, categories := CollectUsable(components, normal);
    if |norm| == 0 { return None; }
    ghost var collected := categories;
    categories := Sort(categories, StrAtMost);
    StrOrderIsTotal();
    SortSorts(collected, StrAtMost);
    SortedKeysUnique(categories, CategorySet(norm));
    norm := Sort(norm, PairAtMost);
    var b := WriteLines(namespace, norm);
    return Some((b, categories));
  }

  // ----- Order independence -----

  lemma {:induction false} UsableConcat(a: seq<Component>, b: seq<Component>, normal: string -> string)
    ensures Usable(a + b, normal) == Usable(a, normal) + Usable(b, normal)
  {
    if a == [] {
      assert a + b == b;
    } else {
      assert (a + b)[1..] == a[1..] + b && (a + b)[0] == a[0];
      UsableConcat(a[1..], b, normal);
    }
  }

  /** One component taken out of its place. */
  lemma UsableAround(x: seq<Component>, c: Component, y: seq<Component>, normal: string -> string)
    ensures multiset(Usable(x + [c] + y, normal)) == multiset(Usable([c], normal)) + multiset(Usable(x + y, normal))
  {
    UsableConcat(x + [c], y, normal);
    UsableConcat(x, [c], normal);
    UsableConcat(x, y, normal);
  }

  lemma UsableHead(a: seq<Component>, normal: string -> string)
    requires a != []
    ensures multiset(Usable(a, normal)) == multiset(Usable([a[0]], normal)) + multiset(Usable(a[1..], normal))
  {
    assert a == [a[0]] + a[1..];
    UsableConcat([a[0]], a[1..], normal);
  }

  lemma {:induction false} UsablePermutes(a: seq<Component>, b: seq<Component>, normal: string -> string)
    requires multiset(a) == multiset(b)
    ensures multiset(Usable(a, normal)) == multiset(Usable(b, normal))
  {
    if a == [] {
      MultisetMembers(a, b);
    } else {
      var x, y := MatchHead(a, b);
      UsablePermutes(a[1..], x + y, normal);
      UsableAround(x, a[0], y, normal);
      UsableHead(a, normal);
    }
  }

  /** Where the head of `a` stands in `b`. */
  lemma MatchHead(a: seq<Component>, b: seq<Component>) returns (x: seq<Component>, y: seq<Component>)
    requires a != [] && multiset(a) == multiset(b)
    ensures b == x + [a[0]] + y && multiset(a[1..]) == multiset(x + y)
  {
    MultisetMembers(a, b);
    assert a[0] in a;
    var i :| 0 <= i < |b| && b[i] == a[0];
    x, y := b[..i], b[i+1..];
    assert b == x + [a[0]] + y;
    assert a == [] + [a[0]] + a[1..];
    MultisetAround([], a[0], a[1..]);
    MultisetAround(x, a[0], y);
    assert [] + a[1..] == a[1..];
  }

  lemma MultisetAround(x: seq<Component>, c: Component, y: seq<Component>)
    ensures multiset(x + y) == multiset(x + [c] + y) - multiset{c}
  {
  }

  lemma SameCategories(a: seq<Pair>, b: seq<Pair>)
    requires multiset(a) == multiset(b)
    ensures CategorySet(a) == CategorySet(b)
  {
    MultisetMembers(a, b);
  }

  /** Whatever order the components are collected in, the result is the same. */
  lemma OrderIndependent(namespace: string, a: seq<Component>, b: seq<Component>, normal: string -> string)
    requires multiset(a) == multiset(b)
    ensures CanonicalForm(namespace, a, normal) == CanonicalForm(namespace, b, normal)
  {
    var x, y := Usable(a, normal), Usable(b, normal);
    UsablePermutes(a, b, normal);
    MultisetMembers(x, y);
    PairOrderIsTotal();
    SortDependsOnMultiset(x, y, PairAtMost);
    SameCategories(x, y);
  }

  // ----- Unambiguity -----

  predicate CleanCategories(components: seq<Component>)
  {
    forall c :: c in components ==> '=' !in c.category && '\n' !in c.category
  }

  /** Lines that split back: one per pair, each cut at its first '='. */
  predicate CleanPairs(pairs: seq<Pair>)
  {
    forall p :: p in pairs ==> '=' !in p.0 && '\n' !in p.0 && '\n' !in p.1
  }

  lemma {:induction false} UsableIsClean(components: seq<Component>, normal: string -> string)
    requires CleanCategories(components) && NewlineFree(normal)
    ensures CleanPairs(Usable(components, normal))
  {
    if components != [] {
      assert components[0] in components;
      UsableIsClean(components[1..], normal);
    }
  }

  ghost predicate NewlineFree(normal: string -> string)
  {
    forall s :: '\n' !in normal(s)
  }

  lemma LineInjective(p: Pair, q: Pair)
    requires '=' !in p.0 && '=' !in q.0 && Line(p) == Line(q)
    ensures p == q
  {
    IndexByteAt(p.0, '=', p.1);
    IndexByteAt(q.0, '=', q.1);
    assert Line(p)[..|p.0|] == p.0 && Line(p)[|p.0|+1..] == p.1;
    assert Line(q)[..|q.0|] == q.0 && Line(q)[|q.0|+1..] == q.1;
  }

  predicate NulFree(pairs: seq<Pair>)
  {
    forall p :: p in pairs ==> '\0' !in p.0 && '\0' !in p.1
  }

  /** Where the namespace ends can be told, from either side. */
  predicate Separable(n1: string, a: seq<Pair>, n2: string, b: seq<Pair>)
  {
    ('\0' !in n1 && '\0' !in n2) || (NulFree(a) && NulFree(b))
  }

  lemma NamespaceSplits(n1: string, x: string, n2: string, y: string)
    requires n1 + "\0" + x == n2 + "\0" + y && |n1| <= |n2|
    requires '\0' !in n2 || '\0' !in x
    ensures n1 == n2 && x == y
  {
    var s := n1 + "\0" + x;
    if |n1| < |n2| {
      BothHoldNul(n1, x, n2, y);
    } else {
      assert n1 == s[..|n1|] && n2 == s[..|n2|] && x == s[|n1|+1..] && y == s[|n2|+1..];
    }
  }

  lemma BothHoldNul(n1: string, x: string, n2: string, y: string)
    requires n1 + "\0" + x == n2 + "\0" + y && |n1| < |n2|
    ensures '\0' in n2 && '\0' in x
  {
    var s := n1 + "\0" + x;
    assert s[|n1|] == '\0' && s[|n2|] == '\0';
    assert n2[|n1|] == s[|n1|] && x[|n2|-|n1|-1] == s[|n2|];
  }

  lemma NulFreeText(pairs: seq<Pair>)
    requires NulFree(pairs)
    ensures '\0' !in Join(Lines(pairs), '\n')
  {
    forall l | l in Lines(pairs) ensures '\0' !in l {
      var i :| 0 <= i < |pairs| && Lines(pairs)[i] == l;
      assert pairs[i] in pairs;
    }
    if '\0' in Join(Lines(pairs), '\n') { JoinMembers(Lines(pairs), '\n', '\0'); }
  }

  lemma SerializeInjective(n1: string, a: seq<Pair>, n2: string, b: seq<Pair>)
    requires Separable(n1, a, n2, b) && CleanPairs(a) && CleanPairs(b) && a != [] && b != []
    requires Serialize(n1, a) == Serialize(n2, b)
    ensures n1 == n2 && a == b
  {
    var x, y := Lines(a), Lines(b);
    if NulFree(a) && NulFree(b) {
      NulFreeText(a);
      NulFreeText(b);
    }
    if |n1| <= |n2| {
      NamespaceSplits(n1, Join(x, '\n'), n2, Join(y, '\n'));
    } else {
      NamespaceSplits(n2, Join(y, '\n'), n1, Join(x, '\n'));
    }
    LinesHaveNoNewline(a);
    LinesHaveNoNewline(b);
    SplitJoin(x, '\n');
    SplitJoin(y, '\n');
    forall i | 0 <= i < |a| ensures a[i] == b[i] {
      assert a[i] in a && b[i] in b && x[i] == y[i];
      LineInjective(a[i], b[i]);
    }
  }

  lemma LinesHaveNoNewline(pairs: seq<Pair>)
    requires CleanPairs(pairs)
    ensures forall l :: l in Lines(pairs) ==> '\n' !in l
  {
    forall l | l in Lines(pairs) ensures '\n' !in l {
      var i :| 0 <= i < |pairs| && Lines(pairs)[i] == l;
      assert pairs[i] in pairs;
    }
  }

  lemma CleanPermutes(a: seq<Pair>, b: seq<Pair>)
    requires CleanPairs(a) && multiset(a) == multiset(b)
    ensures CleanPairs(b) && (NulFree(a) ==> NulFree(b)) && |a| == |b|
  {
    MultisetMembers(a, b);
    assert |multiset(a)| == |a| && |multiset(b)| == |b|;
  }

  /** For categories without '=' or newline, and with no NUL in the namespaces or
      none in the categories and values, two canonical strings are equal exactly
      when the namespaces and the multisets of (category, normalized value)
      are. */
  lemma UnambiguousUnder(n1: string, a: seq<Component>, n2: string, b: seq<Component>, normal: string -> string)
    requires NewlineFree(normal) && CleanCategories(a) && CleanCategories(b)
    requires Separable(n1, Usable(a, normal), n2, Usable(b, normal))
    requires CanonicalForm(n1, a, normal).Some? && CanonicalForm(n2, b, normal).Some?
    ensures CanonicalForm(n1, a, normal).value.0 == CanonicalForm(n2, b, normal).value.0 <==>
            n1 == n2 && multiset(Usable(a, normal)) == multiset(Usable(b, normal))
  {
    var x, y := Usable(a, normal), Usable(b, normal);
    UsableIsClean(a, normal);
    UsableIsClean(b, normal);
    UnambiguousPairs(n1, x, n2, y);
  }

  lemma UnambiguousPairs(n1: string, x: seq<Pair>, n2: string, y: seq<Pair>)
    requires CleanPairs(x) && CleanPairs(y) && Separable(n1, x, n2, y) && x != [] && y != []
    ensures Serialize(n1, Sort(x, PairAtMost)) == Serialize(n2, Sort(y, PairAtMost)) <==>
            n1 == n2 && multiset(x) == multiset(y)
  {
    var x', y' := Sort(x, PairAtMost), Sort(y, PairAtMost);
    CleanPermutes(x, x');
    CleanPermutes(y, y');
    if Serialize(n1, x') == Serialize(n2, y') { SerializeInjective(n1, x', n2, y'); }
    if multiset(x) == multiset(y) {
      PairOrderIsTotal();
      SortDependsOnMultiset(x, y, PairAtMost);
    }
  }

  /** The canonical form under the source's normalization: with no NUL in the
      namespaces, or none in the categories and values, equal exactly for equal
      namespaces and equal multisets of (category, normalized value). */
  lemma CanonicalFormUnambiguous(n1: string, a: seq<Component>, n2: string, b: seq<Component>, lower: char -> char)
    requires CleanCategories(a) && CleanCategories(b)
    requires Separable(n1, Usable(a, Normalizer(lower)), n2, Usable(b, Normalizer(lower)))
    requires CanonicalForm(n1, a, Normalizer(lower)).Some? && CanonicalForm(n2, b, Normalizer(lower)).Some?
    ensures CanonicalForm(n1, a, Normalizer(lower)).value.0 == CanonicalForm(n2, b, Normalizer(lower)).value.0 <==>
            n1 == n2 && multiset(Usable(a, Normalizer(lower))) == multiset(Usable(b, Normalizer(lower)))
  {
    forall s ensures '\n' !in Normalizer(lower)(s) { NormalizedHasNoNewline(s, lower); }
    UnambiguousUnder(n1, a, n2, b, Normalizer(lower));
  }

  lemma {:induction false} LoweredAlready(s: string, lower: char -> char)
    requires forall c :: c in s ==> lower(c) == c
    ensures ToLower(s, lower) == s
  {
    if s != [] {
      assert s == [s[0]] + s[1..];
      LoweredAlready(s[1..], lower);
    }
  }

  lemma {:induction false} OneWord(s: string)
    requires forall c :: c in s ==> !IsSpace(c)
    ensures WordLength(s) == |s|
  {
    if s != [] {
      assert s[0] in s;
      OneWord(s[1..]);
    }
  }

  /** Lower-case words, in which normalization changes nothing. */
  predicate Plain(s: string, lower: char -> char)
  {
    s != [] && forall c :: c in s ==> !IsSpace(c) && lower(c) == c
  }

  /** A lower-case word without white space is its own normal form. */
  lemma NormalWord(s: string, lower: char -> char)
    requires Plain(s, lower)
    ensures Normalize(s, lower) == s
  {
    assert s[0] in s && s[|s|-1] in s;
    LoweredAlready(s, lower);
    OneWord(s);
    assert s[..|s|] == s && s[|s|..] == [];
    assert Fields(s) == [s];
  }

  /** The canonical form of a single component. */
  lemma SingleForm(namespace: string, c: Component, normal: string -> string)
    requires normal(c.value) == c.value != ""
    ensures CanonicalForm(namespace, [c], normal) == Some((namespace + "\0" + (c.category + "=" + c.value), [c.category]))
  {
    var p: Pair := (c.category, c.value);
    assert Usable([c], normal) == [p];
    assert Sort([p], PairAtMost) == [p];
    assert Lines([p]) == [Line(p)];
    assert CategorySet([p]) == {c.category};
    SortedKeysUnique([c.category], {c.category});
  }

  /** With a NUL on both sides the text is ambiguous: for all plain words, value
      v NUL c=w under namespace n collides with value w under namespace
      n NUL c=v. */
  lemma NulCollides(n: string, c: string, v: string, w: string, lower: char -> char)
    requires Plain(c, lower) && Plain(v, lower) && Plain(w, lower) && lower('\0') == '\0' && lower('=') == '='
    ensures var a, b := Component(c, v + "\0" + (c + "=" + w)), Component(c, w);
            && a.value != b.value
            && CanonicalForm(n, [a], Normalizer(lower)).Some?
            && CanonicalForm(n, [a], Normalizer(lower)) == CanonicalForm(n + "\0" + (c + "=" + v), [b], Normalizer(lower))
  {
    var x := v + "\0" + (c + "=" + w);
    PlainJoined(c, v, w, lower);
    NormalWord(x, lower);
    NormalWord(w, lower);
    SingleForm(n, Component(c, x), Normalizer(lower));
    SingleForm(n + "\0" + (c + "=" + v), Component(c, w), Normalizer(lower));
    SameText(n, c, v, w);
  }

  lemma PlainJoined(c: string, v: string, w: string, lower: char -> char)
    requires Plain(c, lower) && Plain(v, lower) && Plain(w, lower) && lower('\0') == '\0' && lower('=') == '='
    ensures Plain(v + "\0" + (c + "=" + w), lower)
  {
  }

  lemma SameText(n: string, c: string, v: string, w: string)
    ensures n + "\0" + (c + "=" + (v + "\0" + (c + "=" + w))) == n + "\0" + (c + "=" + v) + "\0" + (c + "=" + w)
    ensures v + "\0" + (c + "=" + w) != w
  {
    assert |v + "\0" + (c + "=" + w)| > |w|;
  }

  // ----- The primary component -----

  /** Known junk values; `v` is already normalized. */
  predicate IsPlaceholder(v: string)
  {
    || v in {"", "none", "default", "default string", "to be filled by o.e.m.", "to be filled by o.e.m",
             "system serial number", "system product name", "not specified", "not available", "unknown", "0",
             "00000000-0000-0000-0000-000000000000", "ffffffff-ffff-ffff-ffff-ffffffffffff"}
    || forall i :: 0 <= i < |v| ==> v[i] == '0' || v[i] == '-'
  }

  method IsPlaceholderValue(v: string) returns (junk: bool)
    ensures junk <==> IsPlaceholder(v)
  {
    if v == "" { return true; }
    match v {
      case "none" => return true;
      case "default" => return true;
      case "default string" => return true;
      case "to be filled by o.e.m." => return true;
      case "to be filled by o.e.m" => return true;
      case "system serial number" => return true;
      case "system product name" => return true;
      case "not specified" => return true;
      case "not available" => return true;
      case "unknown" => return true;
      case "0" => return true;
      case "00000000-0000-0000-0000-000000000000" => return true;
      case "ffffffff-ffff-ffff-ffff-ffffffffffff" => return true;
      case _ =>
    }
    for i := 0 to |v|
      invariant forall k :: 0 <= k < i ==> v[k] == '0' || v[k] == '-'
    {
      if v[i] != '0' && v[i] != '-' { return false; }
    }
    return true;
  }

  /** Not junk, once normalized. */
  predicate Eligible(c: Component, lower: char -> char)
  {
    !IsPlaceholder(Normalize(c.value, lower))
  }

  function Eligibility(lower: char -> char): Component -> bool
  {
    c => Eligible(c, lower)
  }

  /** The last position of a category in the priority order; unknown categories
      rank after all known ones. */
  function Rank(category: string, priority: seq<string>): (r: nat)
    ensures r <= |priority|
    ensures r < |priority| ==> priority[r] == category
    ensures r == |priority| <==> category !in priority
  {
    if priority == [] then 0
    else
      var last := |priority| - 1;
      if priority[last] == category then last
      else
        var r := Rank(category, priority[..last]);
        assert category in priority <==> category in priority[..last];
        if r == last then |priority| else r
  }

  /** The first eligible component of the best rank is at `k`. */
  ghost predicate IsPrimary(components: seq<Component>, priority: seq<string>, eligible: Component -> bool, k: nat)
  {
    && k < |components| && eligible(components[k])
    && (forall j :: 0 <= j < |components| && eligible(components[j]) ==>
          Rank(components[k].category, priority) <= Rank(components[j].category, priority))
    && (forall j :: 0 <= j < k && eligible(components[j]) ==>
          Rank(components[k].category, priority) < Rank(components[j].category, priority))
  }

  /** The rank of each category of the priority order. */
  method RankTable(priority: seq<string>) returns (rank: map<string, nat>)
    ensures forall c :: c in rank <==> c in priority
    ensures forall c :: c in rank ==> rank[c] == Rank(c, priority)
  {
    rank := map[];
    for i := 0 to |priority|
      invariant forall c :: c in rank <==> c in priority[..i]
      invariant forall c :: c in rank ==> rank[c] == Rank(c, priority[..i])
    {
      RankStep(priority[..i+1]);
      assert priority[..i+1][..i] == priority[..i];
      rank := rank[priority[i] := i];
    }
    assert priority[..|priority|] == priority;
  }

  /** The table's entry, or the rank after all known ones. */
  function RankOf(category: string, rank: map<string, nat>, priority: seq<string>): (r: nat)
    requires forall c :: c in rank <==> c in priority
    requires forall c :: c in rank ==> rank[c] == Rank(c, priority)
    ensures r == Rank(category, priority)
  {
    if category in rank then rank[category] else |priority|
  }

  lemma RankStep(priority: seq<string>)
    requires priority != []
    ensures var last := |priority| - 1;
            && Rank(priority[last], priority) == last
            && (forall c :: c in priority <==> c in priority[..last] || c == priority[last])
            && (forall c :: c != priority[last] && c in priority[..last] ==> Rank(c, priority) == Rank(c, priority[..last]))
  {
  }

  /** Keeps the best so far; only a strictly better rank replaces it. */
  function Better(best: Option<Component>, c: Component, priority: seq<string>, eligible: Component -> bool): Option<Component>
  {
    if eligible(c) && (best.None? || Rank(c.category, priority) < Rank(best.value.category, priority))
    then Some(c) else best
  }

  function Primary(components: seq<Component>, priority: seq<string>, eligible: Component -> bool): Option<Component>
  {
    if components == [] then None
    else
      var last := |components| - 1;
      Better(Primary(components[..last], priority, eligible), components[last], priority, eligible)
  }

  method PrimaryComponent(components: seq<Component>, priority: seq<string>, lower: char -> char) returns (r: Option<Component>)
    ensures r == Primary(components, priority, Eligibility(lower))
  {
    var rank := RankTable(priority);
    var best: int, chosen := -1, Component("", "");
    for i := 0 to |components|
      invariant best >= -1
      invariant Primary(components[..i], priority, Eligibility(lower)) == if best == -1 then None else Some(chosen)
      invariant best >= 0 ==> best == Rank(chosen.category, priority)
    {
      assert components[..i+1][..i] == components[..i];
      var c := components[i];
      var junk := IsPlaceholderValue(Normalize(c.value, lower));
      if junk { continue; }
      var r := RankOf(c.category, rank, priority);
      if best == -1 || r < best {
        best, chosen := r, c;
      }
    }
    assert components[..|components|] == components;
    return if best == -1 then None else Some(chosen);
  }

  /** The selection is the first eligible component of the best rank; there is
      none only when every component is junk. */
  lemma {:induction false} PrimaryIsFirstBest(components: seq<Component>, priority: seq<string>, eligible: Component -> bool) returns (k: nat)
    ensures var r := Primary(components, priority, eligible);
            if r.None? then forall j :: 0 <= j < |components| ==> !eligible(components[j])
            else IsPrimary(components, priority, eligible, k) && components[k] == r.value
  {
    k := 0;
    if components != [] {
      var init, c := components[..|components| - 1], components[|components| - 1];
      k := PrimaryIsFirstBest(init, priority, eligible);
      assert components == init + [c];
      var before := Primary(init, priority, eligible);
      if before.None? {
        NothingBefore(init, c, priority, eligible);
        k := if eligible(c) then |init| else k;
      } else {
        k := PrimaryOfOneMore(init, k, c, priority, eligible);
      }
    }
  }

  lemma NothingBefore(init: seq<Component>, c: Component, priority: seq<string>, eligible: Component -> bool)
    requires forall j :: 0 <= j < |init| ==> !eligible(init[j])
    ensures if eligible(c) then IsPrimary(init + [c], priority, eligible, |init|)
            else forall j :: 0 <= j < |init + [c]| ==> !eligible((init + [c])[j])
  {
  }

  lemma PrimaryOfOneMore(init: seq<Component>, k: nat, c: Component, priority: seq<string>, eligible: Component -> bool) returns (m: nat)
    requires IsPrimary(init, priority, eligible, k)
    ensures IsPrimary(init + [c], priority, eligible, m)
    ensures Better(Some(init[k]), c, priority, eligible) == Some((init + [c])[m])
  {
    m := if eligible(c) && Rank(c.category, priority) < Rank(init[k].category, priority) then |init| else k;
  }

  /** Inserting a component either changes nothing or makes it the selection. */
  lemma {:induction false} InsertionEffect(a: seq<Component>, x: Component, b: seq<Component>, priority: seq<string>, eligible: Component -> bool)
    ensures var without, with := Primary(a + b, priority, eligible), Primary(a + [x] + b, priority, eligible);
            || with == without
            || (with == Some(x) && eligible(x)
                && (without.None? || Rank(x.category, priority) <= Rank(without.value.category, priority)))
  {
    if b == [] {
      assert a + b == a && (a + [x] + b)[..|a|] == a && (a + [x] + b)[|a|] == x;
    } else {
      var last := |b| - 1;
      InsertionEffect(a, x, b[..last], priority, eligible);
      assert (a + b)[..|a + b| - 1] == a + b[..last] && (a + b)[|a + b| - 1] == b[last];
      var t := a + [x] + b;
      assert t[..|t| - 1] == a + [x] + b[..last] && t[|t| - 1] == b[last];
    }
  }

  /** Drift resistance: a junk component, or one of a rank below the selected
      one, may appear or disappear anywhere without changing the selection. */
  lemma SecondaryDoesNotMatter(a: seq<Component>, x: Component, b: seq<Component>, priority: seq<string>, eligible: Component -> bool, c: Component)
    requires eligible(x) ==> Rank(x.category, priority) > Rank(c.category, priority)
    ensures Primary(a + b, priority, eligible) == Some(c) <==> Primary(a + [x] + b, priority, eligible) == Some(c)
  {
    InsertionEffect(a, x, b, priority, eligible);
  }
}
