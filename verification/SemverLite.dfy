/**
 * Version comparison: `MAJOR.MINOR.PATCH` with an optional prerelease tag.
 *
 * Versions are plain strings; `Parse` is total, as in the source, so the ordering
 * laws below hold for every pair and triple of strings, parseable or not.
 */
module SemverLite {
  import opened TextTools

  type Version = string

  datatype Parsed = Parsed(major: nat, minor: nat, patch: nat, prerelease: seq<string>)

  /** `parseInt` in base ten with NaN and negative results read as zero. */
  function ParseNat(s: string): nat {
    var t := TrimStart(s);
    LeadingNumber(if t != [] && t[0] == '+' then t[1..] else t, 0)
  }

  function Piece(parts: seq<string>, i: nat): string {
    if i < |parts| then parts[i] else ""
  }

  /** A version as typed, without surrounding white space and leading `v` and `=`. */
  function Cleaned(raw: string): Version {
    DropLeading(Trim(raw), "v=")
  }

  function Parse(raw: Version): Parsed {
    var cleaned := Before(Cleaned(raw), '+');
    var halves := Split(cleaned, '-');
    var parts := Split(halves[0], '.');
    Parsed(ParseNat(Piece(parts, 0)), ParseNat(Piece(parts, 1)), ParseNat(Piece(parts, 2)),
           if Piece(halves, 1) == "" then [] else Split(Piece(halves, 1), '.'))
  }

  // ---- Ordering ----

  function Sign(n: int): (r: int)
    ensures -1 <= r <= 1
  {
    if n < 0 then -1 else if n > 0 then 1 else 0
  }

  /** Code-unit lexicographic order. */
  function TextOrder(a: string, b: string): (r: int)
    ensures -1 <= r <= 1
  {
    if a == [] || b == [] then Sign(|a| - |b|)
    else if a[0] != b[0] then Sign(a[0] as int - b[0] as int)
    else TextOrder(a[1..], b[1..])
  }

  /** One prerelease identifier against another: numbers by value and below words. */
  function IdentOrder(a: string, b: string): int {
    if Numeric(a) && Numeric(b) then Sign(LeadingNumber(a, 0) - LeadingNumber(b, 0))
    else if Numeric(a) then -1
    else if Numeric(b) then 1
    else TextOrder(a, b)
  }

  function IdentsOrder(a: seq<string>, b: seq<string>): int {
    if a == [] || b == [] then Sign(|a| - |b|)
    else if IdentOrder(a[0], b[0]) != 0 then IdentOrder(a[0], b[0])
    else IdentsOrder(a[1..], b[1..])
  }

  /** A version without a prerelease tag is above every version with one. */
  function PrereleaseOrder(a: seq<string>, b: seq<string>): int {
    if a == [] || b == [] then Sign(|b| - |a|) else IdentsOrder(a, b)
  }

  function ParsedOrder(a: Parsed, b: Parsed): int {
    if a.major != b.major then Sign(a.major - b.major)
    else if a.minor != b.minor then Sign(a.minor - b.minor)
    else if a.patch != b.patch then Sign(a.patch - b.patch)
    else PrereleaseOrder(a.prerelease, b.prerelease)
  }

  function Order(a: Version, b: Version): int {
    ParsedOrder(Parse(a), Parse(b))
  }

  predicate IsNewer(candidate: Version, base: Version) {
    Order(candidate, base) > 0
  }

  lemma {:induction false} TextOrderLaws(a: string, b: string, c: string)
    ensures TextOrder(a, b) == -TextOrder(b, a)
    ensures TextOrder(a, b) == 0 <==> a == b
    ensures TextOrder(a, b) <= 0 && TextOrder(b, c) <= 0 ==> TextOrder(a, c) <= 0
    decreases |a| + |b| + |c|
  {
    if a != [] && b != [] && a[0] == b[0] {
      assert a == [a[0]] + a[1..] && b == [b[0]] + b[1..];
      TextOrderLaws(a[1..], b[1..], if c == [] then [] else c[1..]);
    }
  }

  lemma {:induction false} IdentOrderLaws(a: string, b: string, c: string)
    ensures IdentOrder(a, b) == -IdentOrder(b, a)
    ensures IdentOrder(a, a) == 0
    ensures IdentOrder(a, b) <= 0 && IdentOrder(b, c) <= 0 ==>
              IdentOrder(a, c) <= 0 && (IdentOrder(a, c) == 0 ==> IdentOrder(a, b) == 0 && IdentOrder(b, c) == 0)
  {
    TextOrderLaws(a, b, c);
    TextOrderLaws(b, c, a);
    TextOrderLaws(a, c, b);
    TextOrderLaws(a, a, a);
  }

  lemma {:induction false} IdentsOrderLaws(a: seq<string>, b: seq<string>, c: seq<string>)
    ensures IdentsOrder(a, b) == -IdentsOrder(b, a)
    ensures IdentsOrder(a, a) == 0
    ensures IdentsOrder(a, b) <= 0 && IdentsOrder(b, c) <= 0 ==>
              IdentsOrder(a, c) <= 0 && (IdentsOrder(a, c) == 0 ==> IdentsOrder(a, b) == 0 && IdentsOrder(b, c) == 0)
    decreases |a| + |b| + |c|
  {
    if a != [] {
      IdentOrderLaws(a[0], a[0], a[0]);
      IdentsOrderLaws(a[1..], if b == [] then [] else b[1..], if c == [] then [] else c[1..]);
      if b != [] {
        IdentOrderLaws(a[0], b[0], if c == [] then "" else c[0]);
        if c != [] {
          IdentOrderLaws(b[0], c[0], a[0]);
          IdentOrderLaws(c[0], a[0], b[0]);
        }
      }
    }
  }

  lemma ParsedOrderLaws(a: Parsed, b: Parsed, c: Parsed)
    ensures ParsedOrder(a, b) == -ParsedOrder(b, a)
    ensures ParsedOrder(a, a) == 0
    ensures ParsedOrder(a, b) <= 0 && ParsedOrder(b, c) <= 0 ==>
              ParsedOrder(a, c) <= 0 && (ParsedOrder(a, c) == 0 ==> ParsedOrder(a, b) == 0 && ParsedOrder(b, c) == 0)
  {
    var x, y, z := a.prerelease, b.prerelease, c.prerelease;
    IdentsOrderLaws(x, y, z);
    IdentsOrderLaws(y, z, x);
    IdentsOrderLaws(x, z, y);
    IdentsOrderLaws(x, x, x);
  }

  /** Comparison is a total preorder on all strings, so "newer" is a strict weak order. */
  lemma OrderIsTotalPreorder(a: Version, b: Version, c: Version)
    ensures Order(a, b) == -Order(b, a)
    ensures Order(a, a) == 0
    ensures Order(a, b) <= 0 && Order(b, c) <= 0 ==> Order(a, c) <= 0
    ensures IsNewer(a, b) && IsNewer(b, c) ==> IsNewer(a, c)
    ensures IsNewer(a, b) ==> !IsNewer(b, a)
  {
    ParsedOrderLaws(Parse(a), Parse(b), Parse(c));
    ParsedOrderLaws(Parse(c), Parse(b), Parse(a));
    ParsedOrderLaws(Parse(a), Parse(c), Parse(b));
  }

  lemma {:induction false} IdentsOrderAfter(a: seq<string>, b: seq<string>, i: nat)
    requires i <= |a| && i <= |b|
    requires forall k | 0 <= k < i :: IdentOrder(a[k], b[k]) == 0
    ensures IdentsOrder(a, b) == IdentsOrder(a[i..], b[i..])
  {
    if i > 0 {
      IdentsOrderAfter(a[1..], b[1..], i - 1);
      assert a[1..][i - 1..] == a[i..] && b[1..][i - 1..] == b[i..];
    } else {
      assert a[0..] == a && b[0..] == b;
    }
  }

  // ---- The order on versions as they are written ----

  /** White space around a version and `v` or `=` in front of it make no difference. */
  lemma {:induction false} CleanedDrops(front: string, marks: string, s: Version, back: string)
    requires AllSpace(front) && AllSpace(back) && forall k | 0 <= k < |marks| :: marks[k] == 'v' || marks[k] == '='
    requires s != "" && !IsSpace(s[0]) && s[0] != 'v' && s[0] != '=' && !IsSpace(s[|s| - 1])
    ensures Cleaned(front + (marks + s) + back) == s
  {
    var t := marks + s;
    assert t[|t| - 1] == s[|s| - 1] && t[0] == if marks == "" then s[0] else marks[0];
    TrimDropsSpace(front, t, back);
    MarksGo(marks, s);
  }

  lemma {:induction false} MarksGo(marks: string, s: string)
    requires forall k | 0 <= k < |marks| :: marks[k] == 'v' || marks[k] == '='
    requires s != "" && s[0] != 'v' && s[0] != '='
    ensures DropLeading(marks + s, "v=") == s
  {
    if marks == "" {
      assert marks + s == s;
    } else {
      MarksGo(marks[1..], s);
      assert (marks + s)[1..] == marks[1..] + s;
      assert "v="[0] == 'v' && "v="[1] == '=';
    }
  }

  /** A version written out, without a tag. */
  function Shown(major: nat, minor: nat, patch: nat): Version {
    Decimal(major) + "." + Decimal(minor) + "." + Decimal(patch)
  }

  predicate IsTagChar(c: char) {
    IsDigit(c) || 'a' <= c <= 'z' || 'A' <= c <= 'Z' || c == '.' || c == '-'
  }

  /** What a prerelease tag consists of; the identifiers are what the dots separate. */
  predicate IsTag(tag: string) {
    forall k | 0 <= k < |tag| :: IsTagChar(tag[k])
  }

  /** The identifiers that count: those of the text up to the first hyphen. */
  function Identifiers(tag: string): seq<string> {
    if Before(tag, '-') == "" then [] else Split(Before(tag, '-'), '.')
  }

  /** A release for the empty tag. */
  function Tagged(major: nat, minor: nat, patch: nat, tag: string): Version {
    Shown(major, minor, patch) + if tag == "" then "" else "-" + tag
  }

  lemma NumberIsParsed(n: nat)
    ensures ParseNat(Decimal(n)) == n
  {
    NumberIsReadBack(n, "");
    assert Decimal(n) + "" == Decimal(n);
  }

  lemma ThreePieces(a: string, b: string, c: string)
    requires '.' !in a && '.' !in b && '.' !in c
    ensures Split(a + "." + b + "." + c, '.') == [a, b, c]
  {
    var rest := b + (['.'] + c);
    FirstPiece(a, '.', rest);
    FirstPiece(b, '.', c);
    SplitWhole(c, '.');
    assert a + "." + b + "." + c == a + (['.'] + rest);
  }

  lemma ShownSplits(major: nat, minor: nat, patch: nat)
    ensures Split(Shown(major, minor, patch), '.') == [Decimal(major), Decimal(minor), Decimal(patch)]
  {
    ThreePieces(Decimal(major), Decimal(minor), Decimal(patch));
  }

  lemma ShownIsPlain(major: nat, minor: nat, patch: nat)
    ensures var s := Shown(major, minor, patch);
            s != "" && IsDigit(s[0]) && IsDigit(s[|s| - 1]) && forall k | 0 <= k < |s| :: IsDigit(s[k]) || s[k] == '.'
  {
  }

  /** A text that neither begins nor ends in anything that cleaning takes away. */
  lemma CleanIsKept(v: Version)
    requires v != "" && IsDigit(v[0]) && !IsSpace(v[|v| - 1])
    ensures Cleaned(v) == v
  {
    CleanedDrops("", "", v, "");
    assert "" + ("" + v) + "" == v;
  }

  lemma WholeBefore(s: string, c: char)
    requires c !in s
    ensures Before(s, c) == s
  {
    BeforeStops(s, c, "");
    assert s + "" == s;
  }

  lemma TaggedIsClean(major: nat, minor: nat, patch: nat, tag: string)
    requires IsTag(tag)
    ensures Cleaned(Tagged(major, minor, patch, tag)) == Tagged(major, minor, patch, tag)
    ensures '+' !in Tagged(major, minor, patch, tag)
  {
    var s, v := Shown(major, minor, patch), Tagged(major, minor, patch, tag);
    ShownIsPlain(major, minor, patch);
    assert v[0] == s[0] && v[|v| - 1] == if tag == "" then s[|s| - 1] else tag[|tag| - 1];
    CleanIsKept(v);
  }

  lemma TaggedSplits(major: nat, minor: nat, patch: nat, tag: string)
    requires IsTag(tag)
    ensures Split(Tagged(major, minor, patch, tag), '-')
         == [Shown(major, minor, patch)] + if tag == "" then [] else Split(tag, '-')
  {
    var s := Shown(major, minor, patch);
    ShownIsPlain(major, minor, patch);
    if tag == "" {
      SplitWhole(s, '-');
      assert s + "" == s;
    } else {
      FirstPiece(s, '-', tag);
      assert s + "-" + tag == s + (['-'] + tag);
    }
  }

  /** What is written is what is parsed. */
  lemma TaggedIsParsed(major: nat, minor: nat, patch: nat, tag: string)
    requires IsTag(tag)
    ensures Parse(Tagged(major, minor, patch, tag))
         == Parsed(major, minor, patch, Identifiers(tag))
  {
    BeforeIsFirst(tag, '-');
    TaggedIsClean(major, minor, patch, tag);
    WholeBefore(Tagged(major, minor, patch, tag), '+');
    TaggedSplits(major, minor, patch, tag);
    ShownSplits(major, minor, patch);
    NumberIsParsed(major);
    NumberIsParsed(minor);
    NumberIsParsed(patch);
  }

  /** Build metadata makes no difference. */
  lemma BuildIsIgnored(major: nat, minor: nat, patch: nat, tag: string, build: string)
    requires IsTag(tag) && (build != "" ==> !IsSpace(build[|build| - 1]))
    ensures Parse(Tagged(major, minor, patch, tag) + ("+" + build)) == Parse(Tagged(major, minor, patch, tag))
  {
    var v := Tagged(major, minor, patch, tag);
    var long := v + ("+" + build);
    ShownIsPlain(major, minor, patch);
    TaggedIsClean(major, minor, patch, tag);
    assert v[0] == Shown(major, minor, patch)[0] == long[0];
    assert long[|long| - 1] == if build == "" then '+' else build[|build| - 1];
    CleanIsKept(long);
    BeforeStops(v, '+', "+" + build);
    WholeBefore(v, '+');
  }

  lemma PlainIsParsed(v: string)
    requires v != "" && !IsSpace(v[0]) && !IsSpace(v[|v| - 1]) && v[0] != 'v' && v[0] != '='
    requires '+' !in v && '-' !in v
    ensures var parts := Split(v, '.');
            Parse(v) == Parsed(ParseNat(Piece(parts, 0)), ParseNat(Piece(parts, 1)), ParseNat(Piece(parts, 2)), [])
  {
    CleanedDrops("", "", v, "");
    assert "" + ("" + v) + "" == v;
    WholeBefore(v, '+');
    SplitWhole(v, '-');
  }

  lemma OneNumber(major: nat)
    ensures Parse(Decimal(major)) == Parsed(major, 0, 0, [])
  {
    PlainIsParsed(Decimal(major));
    SplitWhole(Decimal(major), '.');
    NumberIsParsed(major);
  }

  lemma TwoPieces(a: string, b: string)
    requires '.' !in a && '.' !in b
    ensures Split(a + ("." + b), '.') == [a, b]
  {
    FirstPiece(a, '.', b);
    SplitWhole(b, '.');
    assert "." + b == ['.'] + b;
  }

  lemma TwoNumbers(major: nat, minor: nat)
    ensures Parse(Decimal(major) + ("." + Decimal(minor))) == Parsed(major, minor, 0, [])
  {
    var a, b := Decimal(major), Decimal(minor);
    var two := a + ("." + b);
    assert two[0] == a[0] && two[|two| - 1] == b[|b| - 1];
    PlainIsParsed(two);
    TwoPieces(a, b);
    NumberIsParsed(major);
    NumberIsParsed(minor);
  }

  /** Numbers that are missing count as zero. */
  lemma ShortIsPadded(major: nat, minor: nat)
    ensures Order(Decimal(major), Shown(major, 0, 0)) == 0
    ensures Order(Decimal(major) + ("." + Decimal(minor)), Shown(major, minor, 0)) == 0
  {
    OneNumber(major);
    TwoNumbers(major, minor);
    TaggedIsParsed(major, 0, 0, "");
    TaggedIsParsed(major, minor, 0, "");
    assert Shown(major, 0, 0) + "" == Shown(major, 0, 0) && Shown(major, minor, 0) + "" == Shown(major, minor, 0);
  }

  /** So does a text without digits, dots, signs and spaces: it ranks with 0.0.0. */
  lemma WordsAreZero(word: string)
    requires word != "" && word[0] != 'v' && word[0] != '='
    requires forall k | 0 <= k < |word| :: 'a' <= word[k] <= 'z' || 'A' <= word[k] <= 'Z'
    ensures Order(word, Shown(0, 0, 0)) == 0
  {
    PlainIsParsed(word);
    SplitWhole(word, '.');
    TaggedIsParsed(0, 0, 0, "");
    assert Shown(0, 0, 0) + "" == Shown(0, 0, 0);
  }

  /** Of versions with different numbers the newer one has the greater numbers, whatever their tags. */
  lemma NewerByNumbers(a: nat, b: nat, c: nat, tag: string, x: nat, y: nat, z: nat, tag': string)
    requires IsTag(tag) && IsTag(tag') && (a != x || b != y || c != z)
    ensures IsNewer(Tagged(a, b, c, tag), Tagged(x, y, z, tag')) <==> a > x || (a == x && (b > y || (b == y && c > z)))
  {
    TaggedIsParsed(a, b, c, tag);
    TaggedIsParsed(x, y, z, tag');
  }

  /** A release is newer than each of its prereleases. */
  lemma ReleaseIsNewer(a: nat, b: nat, c: nat, tag: string)
    requires IsTag(tag) && tag != "" && tag[0] != '-'
    ensures IsNewer(Shown(a, b, c), Tagged(a, b, c, tag)) && !IsNewer(Tagged(a, b, c, tag), Shown(a, b, c))
  {
    TaggedIsParsed(a, b, c, tag);
    TaggedIsParsed(a, b, c, "");
    assert Tagged(a, b, c, "") == Shown(a, b, c);
  }

  lemma {:induction false} SharedIdents(ids: seq<string>, xs: seq<string>, ys: seq<string>)
    ensures IdentsOrder(ids + xs, ids + ys) == IdentsOrder(xs, ys)
  {
    if ids == [] {
      assert ids + xs == xs && ids + ys == ys;
    } else {
      SharedIdents(ids[1..], xs, ys);
      IdentOrderLaws(ids[0], ids[0], ids[0]);
      assert (ids + xs)[1..] == ids[1..] + xs && (ids + ys)[1..] == ids[1..] + ys;
    }
  }

  lemma LastIdentOrders(ids: seq<string>, x: string, y: string)
    requires ids != []
    ensures PrereleaseOrder(ids + [x], ids + [y]) == IdentOrder(x, y)
    ensures PrereleaseOrder(ids + [x], ids) == 1
  {
    SharedIdents(ids, [x], [y]);
    SharedIdents(ids, [x], []);
    assert ids + [] == ids;
  }

  lemma LastIdentSplits(tag: string, x: string)
    requires '.' !in x
    ensures Split(tag + ("." + x), '.') == Split(tag, '.') + [x]
  {
    SplitAt(tag, '.', x);
    SplitWhole(x, '.');
    assert "." + x == ['.'] + x;
  }

  lemma LastIdentIsParsed(a: nat, b: nat, c: nat, tag: string, x: string)
    requires IsTag(tag) && IsTag(x) && '.' !in x && '-' !in tag && '-' !in x
    ensures Parse(Tagged(a, b, c, tag + ("." + x))) == Parsed(a, b, c, Split(tag, '.') + [x])
  {
    LastIdentSplits(tag, x);
    var longer := tag + ("." + x);
    assert IsTag(longer) && '-' !in longer;
    WholeBefore(longer, '-');
    TaggedIsParsed(a, b, c, longer);
  }

  /** Tags that first differ in their last identifier compare as these do; without it a tag is older. */
  lemma LastIdentDecides(a: nat, b: nat, c: nat, tag: string, x: string, y: string)
    requires IsTag(tag) && IsTag(x) && IsTag(y) && tag != "" && '.' !in x && '.' !in y
    requires '-' !in tag && '-' !in x && '-' !in y
    ensures Order(Tagged(a, b, c, tag + ("." + x)), Tagged(a, b, c, tag + ("." + y))) == IdentOrder(x, y)
    ensures IsNewer(Tagged(a, b, c, tag + ("." + x)), Tagged(a, b, c, tag))
  {
    LastIdentIsParsed(a, b, c, tag, x);
    LastIdentIsParsed(a, b, c, tag, y);
    WholeBefore(tag, '-');
    TaggedIsParsed(a, b, c, tag);
    LastIdentOrders(Split(tag, '.'), x, y);
  }

  /**
   * A tag ends at its first hyphen: what comes after it, which may well be part of an identifier, makes no
   * difference. So of two such prereleases neither is newer.
   */
  lemma HyphenEndsTheTag(a: nat, b: nat, c: nat, tag: string, x: string, y: string)
    requires IsTag(tag) && IsTag(x) && IsTag(y) && '-' !in tag && tag != ""
    ensures Order(Tagged(a, b, c, tag + ("-" + x)), Tagged(a, b, c, tag + ("-" + y))) == 0
  {
    var s, t := tag + ("-" + x), tag + ("-" + y);
    assert IsTag(s) && IsTag(t);
    BeforeStops(tag, '-', "-" + x);
    BeforeStops(tag, '-', "-" + y);
    TaggedIsParsed(a, b, c, s);
    TaggedIsParsed(a, b, c, t);
    ParsedOrderLaws(Parse(Tagged(a, b, c, s)), Parse(Tagged(a, b, c, s)), Parse(Tagged(a, b, c, s)));
  }

  /** Numbers compare by value and are older than words; words compare at the first letter that differs. */
  lemma IdentsByKind(m: nat, n: nat, front: string, x: char, y: char, back: string, back': string)
    ensures IdentOrder(Decimal(m), Decimal(n)) > 0 <==> m > n
    ensures var word := front + ([x] + back); !Numeric(word) ==> IdentOrder(word, Decimal(n)) > 0
    ensures var word, word' := front + ([x] + back), front + ([y] + back');
            !Numeric(word) && !Numeric(word') && x > y ==> IdentOrder(word, word') > 0
  {
    NumberIsParsed(m);
    NumberIsParsed(n);
    FirstLetterDecides(front, [x] + back, [y] + back');
  }

  lemma {:induction false} FirstLetterDecides(front: string, s: string, t: string)
    ensures TextOrder(front + s, front + t) == TextOrder(s, t)
  {
    if front == "" {
      assert front + s == s && front + t == t;
    } else {
      FirstLetterDecides(front[1..], s, t);
      assert (front + s)[1..] == front[1..] + s && (front + t)[1..] == front[1..] + t;
    }
  }

  // ---- The versions that can be installed ----

  /** Three numbers, perhaps a tag, and a major version that this Desktop supports. */
  predicate Installable(v: Version) {
    var numbers := Split(Before(v, '-'), '.');
    var tag := v[|Before(v, '-')|..];
    && |numbers| == 3 && (forall i | 0 <= i < 3 :: Numeric(numbers[i]))
    && |tag| != 1 && (forall k | 0 <= k < |tag| :: IsTagChar(tag[k]))
    && LeadingNumber(v, 0) in SUPPORTED_CORE_MAJORS
  }

  const SUPPORTED_CORE_MAJORS: set<nat> := {4, 5, 6}

  lemma TaggedStarts(major: nat, minor: nat, patch: nat, tag: string)
    ensures var v := Tagged(major, minor, patch, tag);
            Before(v, '-') == Shown(major, minor, patch) && LeadingNumber(v, 0) == major
  {
    var s, v := Shown(major, minor, patch), Tagged(major, minor, patch, tag);
    var rest := v[|s|..];
    assert v == s + rest;
    ShownIsPlain(major, minor, patch);
    BeforeStops(s, '-', rest);
    var tail := v[|Decimal(major)|..];
    assert v == Decimal(major) + tail && tail[0] == '.';
    NumberIsReadBack(major, tail);
  }

  /** Of the versions as they are written, those of majors 4, 5 and 6. */
  lemma TaggedIsInstallable(major: nat, minor: nat, patch: nat, tag: string)
    requires IsTag(tag)
    ensures Installable(Tagged(major, minor, patch, tag)) <==> 4 <= major <= 6
  {
    var s, v := Shown(major, minor, patch), Tagged(major, minor, patch, tag);
    TaggedStarts(major, minor, patch, tag);
    ShownSplits(major, minor, patch);
    assert v[|s|..] == if tag == "" then "" else "-" + tag;
  }

  /** They are clean already: cleaning one again, as the next run does with a pending version, changes nothing. */
  lemma InstallableIsClean(v: Version)
    requires Installable(v)
    ensures v != "" && Cleaned(v) == v
  {
    var core := Before(v, '-');
    var numbers := Split(core, '.');
    PiecesCover(core, '.');
    assert numbers[0][0] == core[0] == v[0];
    var last := |v| - 1;
    if last < |core| && core[last] != '.' {
      var k :| 0 <= k < |numbers| && core[last] in numbers[k];
    } else if last >= |core| {
      assert v[last] == v[|core|..][last - |core|];
    }
    assert !IsSpace(v[last]);
    CleanIsKept(v);
  }

  /** The identifier-by-identifier loop, with its early exits, computes `PrereleaseOrder`. */
  method ComparePrerelease(a: seq<string>, b: seq<string>) returns (r: int)
    ensures r == PrereleaseOrder(a, b)
  {
    if |a| == 0 && |b| == 0 { return 0; }
    if |a| == 0 { return 1; }
    if |b| == 0 { return -1; }
    var len := if |a| > |b| then |a| else |b|;
    for i := 0 to len
      invariant i <= |a| && i <= |b|
      invariant forall k | 0 <= k < i :: IdentOrder(a[k], b[k]) == 0
    {
      IdentsOrderAfter(a, b, i);
      if i >= |a| { return -1; }
      if i >= |b| { return 1; }
      IdentOrderLaws(a[i], a[i], a[i]);
      TextOrderLaws(a[i], b[i], a[i]);
      if a[i] != b[i] {
        var an, bn := Numeric(a[i]), Numeric(b[i]);
        if an && bn {
          var d := LeadingNumber(a[i], 0) - LeadingNumber(b[i], 0);
          if d != 0 { return if d < 0 then -1 else 1; }
        } else if an {
          return -1;
        } else if bn {
          return 1;
        } else {
          return if TextOrder(a[i], b[i]) < 0 then -1 else 1;
        }
      }
    }
    IdentsOrderAfter(a, b, len);
    return 0;
  }
}
