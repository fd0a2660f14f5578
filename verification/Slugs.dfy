/**
 * Project slugs: a name's letters and digits, lower-cased, its other runs of characters turned into
 * single dashes; and the allocation of a slug that no project has yet.
 *
 * Lower-casing is a parameter: all that is used of it is that it leaves text over the slug alphabet
 * alone.
 */
module Slugs {
  import opened TextTools

  predicate IsAlnum(c: char) {
    'a' <= c <= 'z' || '0' <= c <= '9'
  }

  /** Text over lowercase letters, digits and dashes. */
  predicate InAlphabet(s: string) {
    forall k :: 0 <= k < |s| ==> IsAlnum(s[k]) || s[k] == '-'
  }

  /** Single inner dashes only. */
  predicate IsSlug(s: string) {
    && InAlphabet(s)
    && (s != "" ==> s[0] != '-' && s[|s| - 1] != '-')
    && forall k :: 0 < k < |s| ==> !(s[k - 1] == '-' && s[k] == '-')
  }

  ghost predicate FixesSlugAlphabet(lower: string -> string) {
    forall s :: InAlphabet(s) ==> lower(s) == s
  }

  /** The letters and digits at the front. */
  function Word(s: string): (w: string)
    ensures |w| <= |s|
  {
    if s == "" || !IsAlnum(s[0]) then "" else [s[0]] + Word(s[1..])
  }

  predicate AllAlnum(w: string) {
    forall k :: 0 <= k < |w| ==> IsAlnum(w[k])
  }

  lemma {:induction false} WordIsMaximal(s: string)
    ensures AllAlnum(Word(s)) && Word(s) == s[..|Word(s)|]
    ensures |Word(s)| < |s| ==> !IsAlnum(s[|Word(s)|])
  {
    if s != "" && IsAlnum(s[0]) {
      var rest := s[1..];
      WordIsMaximal(rest);
      assert Word(s) == [s[0]] + Word(rest);
      assert s[..|Word(s)|] == [s[0]] + rest[..|Word(rest)|];
    }
  }

  /** What is left after the run of other characters at the front. */
  function AfterGap(s: string): (r: string)
    ensures |r| <= |s| && (r == "" || IsAlnum(r[0]))
    ensures s != "" && !IsAlnum(s[0]) ==> |r| < |s|
    ensures s != "" && IsAlnum(s[0]) ==> r == s
  {
    if s == "" || IsAlnum(s[0]) then s else AfterGap(s[1..])
  }

  /** Every run of characters that are neither letters nor digits becomes one dash. */
  function Dashed(s: string): string
    decreases |s|
  {
    if s == "" then ""
    else if IsAlnum(s[0]) then [s[0]] + Dashed(s[1..])
    else "-" + Dashed(AfterGap(s))
  }

  /** Without one dash at the front and one at the end. */
  function Trimmed(s: string): string {
    var front := if s != "" && s[0] == '-' then s[1..] else s;
    if front != "" && front[|front| - 1] == '-' then front[..|front| - 1] else front
  }

  function Slugify(name: string, lower: string -> string): string {
    Trimmed(Dashed(lower(name)))
  }

  // ------------------------------------------------------------------------------------------------
  // What a slug is: the words of the name, joined by dashes.

  /** The maximal runs of letters and digits, in order. */
  function Words(s: string): seq<string>
    decreases |s|
  {
    if s == "" then []
    else if IsAlnum(s[0]) then [Word(s)] + Words(s[|Word(s)|..])
    else Words(s[1..])
  }

  function Joined(words: seq<string>): string {
    if words == [] then ""
    else if |words| == 1 then words[0]
    else words[0] + "-" + Joined(words[1..])
  }

  lemma {:induction false} DashedOver(w: string, rest: string)
    requires AllAlnum(w)
    ensures Dashed(w + rest) == w + Dashed(rest)
  {
    if w == "" {
      assert w + rest == rest;
    } else {
      var tail := w[1..];
      DashedOver(tail, rest);
      assert (w + rest)[1..] == tail + rest && (w + rest)[0] == w[0];
      assert w == [w[0]] + tail;
    }
  }

  lemma DashedWord(s: string)
    ensures Dashed(s) == Word(s) + Dashed(s[|Word(s)|..])
  {
    WordIsMaximal(s);
    DashedOver(Word(s), s[|Word(s)|..]);
    assert s == Word(s) + s[|Word(s)|..];
  }

  lemma {:induction false} WordsAfterGap(s: string)
    ensures Words(s) == Words(AfterGap(s))
    decreases |s|
  {
    if s != "" && !IsAlnum(s[0]) {
      WordsAfterGap(s[1..]);
    }
  }

  /** A dash on the side where a gap is. */
  function Side(gap: bool): string {
    if gap then "-" else ""
  }

  predicate EndsInGap(s: string) {
    s != "" && !IsAlnum(s[|s| - 1])
  }

  lemma {:induction false} AfterGapEnds(s: string)
    ensures AfterGap(s) != "" ==> EndsInGap(AfterGap(s)) == EndsInGap(s)
    ensures AfterGap(s) == "" ==> s == "" || EndsInGap(s)
  {
    if s != "" && !IsAlnum(s[0]) {
      AfterGapEnds(s[1..]);
    }
  }

  lemma JoinedCons(w: string, words: seq<string>)
    requires words != []
    ensures Joined([w] + words) == w + "-" + Joined(words)
  {
    assert ([w] + words)[1..] == words;
  }

  lemma EndsInGapOfRest(s: string, n: nat)
    requires n < |s|
    ensures EndsInGap(s[n..]) == EndsInGap(s)
  {
  }

  lemma WordsOf(s: string)
    requires s != "" && IsAlnum(s[0])
    ensures Words(s) == [Word(s)] + Words(AfterGap(s[|Word(s)|..]))
  {
    WordsAfterGap(s[|Word(s)|..]);
  }

  lemma JoinedOne(w: string)
    ensures Joined([w]) == w
  {
  }

  /** A text that starts with a word comes out as its words, with a dash for a gap at its end. */
  lemma {:induction false} DashedIsJoined(s: string)
    requires s != "" && IsAlnum(s[0])
    ensures Words(s) != [] && Dashed(s) == Joined(Words(s)) + Side(EndsInGap(s))
    decreases |s|
  {
    var w := Word(s);
    var rest := s[|w|..];
    var next := AfterGap(rest);
    DashedWord(s);
    WordsOf(s);
    JoinedOne(w);
    WordIsMaximal(s);
    if rest == "" {
      assert s == w && IsAlnum(s[|s| - 1]);
      assert Words(next) == [] && Words(s) == [w];
    } else {
      EndsInGapOfRest(s, |w|);
      AfterGapEnds(rest);
      GapIsOneDash(rest);
      if next == "" {
        assert Words(next) == [] && Words(s) == [w];
      } else {
        DashedIsJoined(next);
        JoinedCons(w, Words(next));
        Chain(w, "-", Joined(Words(next)), Side(EndsInGap(next)));
      }
    }
  }

  lemma Chain(a: string, b: string, c: string, d: string)
    ensures a + (b + (c + d)) == (a + b + c) + d
  {
  }

  lemma GapIsOneDash(s: string)
    requires s != "" && !IsAlnum(s[0])
    ensures Dashed(s) == "-" + Dashed(AfterGap(s))
  {
  }

  lemma {:induction false} WordsAreWords(s: string)
    ensures forall k :: 0 <= k < |Words(s)| ==> IsWord(Words(s)[k])
    decreases |s|
  {
    if s == "" {
    } else if IsAlnum(s[0]) {
      WordIsMaximal(s);
      WordsAreWords(s[|Word(s)|..]);
    } else {
      WordsAreWords(s[1..]);
    }
  }

  predicate IsWord(w: string) {
    w != "" && AllAlnum(w)
  }

  lemma {:induction false} JoinedIsSlug(words: seq<string>)
    requires forall k :: 0 <= k < |words| ==> IsWord(words[k])
    ensures IsSlug(Joined(words)) && (words != [] ==> Joined(words) != "")
  {
    if |words| > 1 {
      assert forall k :: 0 <= k < |words[1..]| ==> words[1..][k] == words[k + 1];
      JoinedIsSlug(words[1..]);
      var w, rest := words[0], Joined(words[1..]);
      assert IsWord(w) && IsWord(words[1]);
      assert Joined(words) == w + "-" + rest;
    } else if |words| == 1 {
      assert IsWord(words[0]);
    }
  }

  lemma TrimmedSides(front: bool, back: bool, s: string, t: string)
    requires IsSlug(s) && s != "" && t == Side(front) + (s + Side(back))
    ensures Trimmed(t) == s
  {
    var u := s + Side(back);
    assert t[0] == if front then '-' else s[0];
    assert (if front then t[1..] else t) == u;
    assert u[|u| - 1] == if back then '-' else s[|s| - 1];
    assert (if back then u[..|u| - 1] else u) == s;
  }

  /** A slug is the words of the lower-cased name, joined by single dashes; and it is a slug. */
  lemma SlugifyJoinsWords(name: string, lower: string -> string)
    ensures Slugify(name, lower) == Joined(Words(lower(name)))
    ensures IsSlug(Slugify(name, lower))
  {
    var s := lower(name);
    TrimmedDashes(s);
    WordsAreWords(s);
    JoinedIsSlug(Words(s));
  }

  lemma DashedSides(s: string)
    requires AfterGap(s) != ""
    ensures Words(s) != []
    ensures Dashed(s) == Side(!IsAlnum(s[0])) + (Joined(Words(s)) + Side(EndsInGap(AfterGap(s))))
  {
    DashedIsJoined(AfterGap(s));
    WordsAfterGap(s);
    if !IsAlnum(s[0]) {
      GapIsOneDash(s);
    }
  }

  lemma TrimmedDashes(s: string)
    ensures Trimmed(Dashed(s)) == Joined(Words(s))
  {
    WordsAreWords(s);
    JoinedIsSlug(Words(s));
    if AfterGap(s) != "" {
      DashedSides(s);
      TrimmedSides(!IsAlnum(s[0]), EndsInGap(AfterGap(s)), Joined(Words(s)), Dashed(s));
    } else {
      WordsAfterGap(s);
      if s != "" {
        GapIsOneDash(s);
      }
    }
  }

  /** A slug that is more than one word goes on, after one dash, with another slug. */
  lemma SlugTail(s: string)
    requires IsSlug(s) && |Word(s)| < |s|
    ensures |Word(s)| + 1 < |s| && s[|Word(s)|] == '-' && IsAlnum(s[|Word(s)| + 1])
    ensures IsSlug(s[|Word(s)| + 1..])
  {
    WordIsMaximal(s);
    var n := |Word(s)|;
    assert s[n] == '-' && s[|s| - 1] != '-';
    assert s[n + 1] != '-';
    SlugSuffix(s, n + 1);
  }

  lemma SlugSuffix(s: string, n: nat)
    requires IsSlug(s) && n < |s| && s[n] != '-'
    ensures IsSlug(s[n..])
  {
    var tail := s[n..];
    assert forall k :: 0 <= k < |tail| ==> tail[k] == s[n + k];
    forall k | 0 < k < |tail| ensures !(tail[k - 1] == '-' && tail[k] == '-') {
      assert tail[k - 1] == s[n + k - 1] && tail[k] == s[n + k];
    }
  }

  /** A gap of one dash before a word. */
  lemma OneDashGap(s: string, n: nat)
    requires n + 1 < |s| && s[n] == '-' && IsAlnum(s[n + 1])
    ensures AfterGap(s[n..]) == s[n + 1..] && s == s[..n] + "-" + s[n + 1..]
  {
    var rest := s[n..];
    assert rest[0] == '-' && rest[1..] == s[n + 1..] && rest[1..][0] == s[n + 1];
  }

  lemma {:induction false} SlugIsItsWords(s: string)
    requires IsSlug(s)
    ensures Joined(Words(s)) == s
    decreases |s|
  {
    if s != "" {
      var w := Word(s);
      WordsOf(s);
      JoinedOne(w);
      WordIsMaximal(s);
      if |w| < |s| {
        SlugTail(s);
        OneDashGap(s, |w|);
        var tail := s[|w| + 1..];
        SlugIsItsWords(tail);
        assert Words(tail) != [];
        JoinedCons(w, Words(tail));
      } else {
        assert s == w && s[|w|..] == "";
        assert Words(s) == [w];
      }
    }
  }

  /** Exactly the slugs are left alone; so slugifying twice is slugifying once. */
  lemma SlugifyFixesSlugsExactly(s: string, lower: string -> string)
    requires FixesSlugAlphabet(lower)
    ensures Slugify(s, lower) == s <==> IsSlug(s)
    ensures Slugify(Slugify(s, lower), lower) == Slugify(s, lower)
  {
    SlugifyJoinsWords(s, lower);
    if IsSlug(s) {
      SlugIsItsWords(s);
    }
    var once := Slugify(s, lower);
    SlugifyJoinsWords(once, lower);
    SlugIsItsWords(once);
  }

  // ------------------------------------------------------------------------------------------------
  // Allocation.

  function Numbered(base: string, n: nat): string {
    base + "-" + Decimal(n)
  }

  lemma NumberedIsInjective(base: string, m: nat, n: nat)
    requires Numbered(base, m) == Numbered(base, n)
    ensures m == n
  {
    var front := base + "-";
    assert Numbered(base, m)[|front|..] == Decimal(m);
    assert Numbered(base, n)[|front|..] == Decimal(n);
    NumberIsReadBack(m, "");
    NumberIsReadBack(n, "");
    assert Decimal(m) + "" == Decimal(m) && Decimal(n) + "" == Decimal(n);
  }

  lemma NumberedIsSlug(base: string, n: nat)
    requires IsSlug(base) && base != ""
    ensures IsSlug(Numbered(base, n))
  {
    var d, s := Decimal(n), Numbered(base, n);
    forall k | 0 <= k < |s| ensures IsAlnum(s[k]) || s[k] == '-' {
      if k > |base| { assert s[k] == d[k - |base| - 1]; }
    }
    forall k | 0 < k < |s| ensures !(s[k - 1] == '-' && s[k] == '-') {
      if k > |base| {
        assert s[k] == d[k - |base| - 1];
      } else if k < |base| {
        assert s[k] == base[k] && s[k - 1] == base[k - 1];
      } else {
        assert s[k - 1] == base[|base| - 1];
      }
    }
    assert s[|s| - 1] == d[|d| - 1];
  }

  function BaseSlug(name: string, lower: string -> string): string {
    if Slugify(name, lower) == "" then "project" else Slugify(name, lower)
  }

  lemma BaseIsSlug(name: string, lower: string -> string)
    ensures IsSlug(BaseSlug(name, lower)) && BaseSlug(name, lower) != ""
  {
    SlugifyJoinsWords(name, lower);
  }

  /**
   * A slug no project has: the base if it is free, otherwise the base with the least free number from
   * two on. The search ends because each number it passes over takes a different slug that exists.
   */
  method AllocateSlug(name: string, lower: string -> string, existing: set<string>) returns (slug: string, n: nat)
    ensures slug !in existing && IsSlug(slug) && slug != ""
    ensures var base := if Slugify(name, lower) == "" then "project" else Slugify(name, lower);
            if base !in existing then slug == base
            else && n >= 2 && slug == base + "-" + Decimal(n)
                 && forall m: nat :: 2 <= m < n ==> base + "-" + Decimal(m) in existing
  {
    var base := Slugify(name, lower);
    if base == "" {
      base := "project";
    }
    BaseIsSlug(name, lower);
    n := 2;
    if base !in existing {
      return base, n;
    }
    ghost var rest := existing;
    while Numbered(base, n) in existing
      invariant n >= 2
      invariant forall m :: 2 <= m < n ==> Numbered(base, m) in existing
      invariant rest <= existing
      invariant forall s :: s in existing && s !in rest ==> exists m :: 2 <= m < n && s == Numbered(base, m)
      decreases rest
    {
      if Numbered(base, n) !in rest {
        var m :| 2 <= m < n && Numbered(base, n) == Numbered(base, m);
        NumberedIsInjective(base, m, n);
        assert false;
      }
      rest := rest - {Numbered(base, n)};
      n := n + 1;
    }
    slug := Numbered(base, n);
    NumberedIsSlug(base, n);
    forall m: nat | 2 <= m < n ensures base + "-" + Decimal(m) in existing {
      assert Numbered(base, m) in existing;
    }
  }

  /** Projects added one after another get pairwise distinct slugs, none of them taken before. */
  method AllocateAll(names: seq<string>, lower: string -> string, existing: set<string>) returns (slugs: seq<string>)
    ensures |slugs| == |names|
    ensures forall i :: 0 <= i < |slugs| ==> slugs[i] !in existing && IsSlug(slugs[i])
    ensures forall i, j :: 0 <= i < j < |slugs| ==> slugs[i] != slugs[j]
  {
    slugs := [];
    var taken := existing;
    var k := 0;
    while k < |names|
      invariant k <= |names| && |slugs| == k
      invariant existing <= taken && forall i :: 0 <= i < k ==> slugs[i] in taken
      invariant forall i :: 0 <= i < k ==> slugs[i] !in existing && IsSlug(slugs[i])
      invariant forall i, j :: 0 <= i < j < k ==> slugs[i] != slugs[j]
    {
      var slug, _ := AllocateSlug(names[k], lower, taken);
      slugs := slugs + [slug];
      taken := taken + {slug};
      k := k + 1;
    }
  }
}
