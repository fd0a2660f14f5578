/**
 * The tolerant repair of model-emitted JSON: one string-aware pass that escapes raw newlines,
 * controls and inner quotes, drops invalid backslashes, trailing commas and comments.
 *
 * `Advance` is one turn of the pass over the remaining text, and `Scan` the whole pass. The output is
 * kept as `Piece`s, so that it can be compared with what an independent RFC 8259 lexer sees in it.
 */
module JsonTolerant {
  import opened Wrappers
  import TextTools

  datatype Repair =
    | NestedFence | TrimmedWrapper | RawNewline | RawControl | InnerQuote
    | InvalidEscape | DanglingEscape | TrailingComma | Comment

  /** The characters that may follow a backslash (RFC 8259 section 7). */
  predicate IsValidEscape(c: char) {
    c == '"' || c == '\\' || c == '/' || c == 'b' || c == 'f' || c == 'n' || c == 'r' || c == 't' || c == 'u'
  }

  predicate IsJsonWhitespace(c: char) {
    c == ' ' || c == '\t' || c == '\r' || c == '\n'
  }

  /** A control character, which RFC 8259 section 7 requires to be escaped inside a string. */
  predicate IsControl(c: char) {
    c < ' '
  }

  // ---- Output, as pieces ----

  datatype Piece = Outside(c: char) | Open | Raw(c: char) | Escape(c: char) | Close

  function PieceText(p: Piece): string {
    match p
    case Outside(c) => [c]
    case Open => "\""
    case Raw(c) => [c]
    case Escape(c) => ['\\', c]
    case Close => "\""
  }

  function Text(pieces: seq<Piece>): string {
    if pieces == [] then "" else PieceText(pieces[0]) + Text(pieces[1..])
  }

  /**
   * The reference lexer of sections 2 and 7 of RFC 8259: a quotation mark opens a string, a
   * backslash takes the next character with it, an unescaped quotation mark closes the string.
   */
  function Lex(text: string, inString: bool): seq<Piece> {
    if text == "" then []
    else if !inString then
      if text[0] == '"' then [Open] + Lex(text[1..], true) else [Outside(text[0])] + Lex(text[1..], false)
    else if text[0] == '\\' && |text| > 1 then [Escape(text[1])] + Lex(text[2..], true)
    else if text[0] == '"' then [Close] + Lex(text[1..], false)
    else [Raw(text[0])] + Lex(text[1..], true)
  }

  // ---- The pass ----

  /** The next character that is not whitespace. */
  function NextSignificant(s: string): Option<char> {
    if s == "" then None
    else if IsJsonWhitespace(s[0]) then NextSignificant(s[1..])
    else Some(s[0])
  }

  predicate Closes(next: Option<char>) {
    next == Some('}') || next == Some(']')
  }

  /** A quotation mark before `rest` ends its string. */
  predicate Terminates(rest: string) {
    var next := NextSignificant(rest);
    next == None || Closes(next) || next == Some(',') || next == Some(':')
  }

  /** The text after the first newline, or nothing. */
  function AfterLine(s: string): (r: string)
    ensures |r| <= |s|
  {
    if s == "" then "" else if s[0] == '\n' then s[1..] else AfterLine(s[1..])
  }

  /** The text after the first end-of-comment mark, or nothing. */
  function AfterBlock(s: string): (r: string)
    ensures |r| <= |s|
  {
    if |s| < 2 then "" else if s[0] == '*' && s[1] == '/' then s[2..] else AfterBlock(s[1..])
  }

  function HexDigit(n: nat): char
    requires n < 16
  {
    "0123456789abcdef"[n]
  }

  datatype Turn = Turn(out: seq<Piece>, repairs: set<Repair>, rest: string, inString: bool)

  /** A turn inside a string, on the character `c` before `rest`. */
  function Inside(c: char, rest: string): (t: Turn)
    ensures |t.rest| <= |rest|
  {
    if c == '\\' then
      if rest == "" then Turn([], {DanglingEscape}, "", true)
      else if IsValidEscape(rest[0]) then Turn([Escape(rest[0])], {}, rest[1..], true)
      else Turn([if rest[0] == '\n' then Escape('n') else Raw(rest[0])], {InvalidEscape}, rest[1..], true)
    else if c == '"' then
      if Terminates(rest) then Turn([Close], {}, rest, false) else Turn([Escape('"')], {InnerQuote}, rest, true)
    else if c == '\n' then Turn([Escape('n')], {RawNewline}, rest, true)
    else if c == '\r' then Turn([], {RawNewline}, rest, true)
    else if c == '\t' then Turn([Escape('t')], {RawControl}, rest, true)
    else if IsControl(c) then
      Turn([Escape('u'), Raw('0'), Raw('0'), Raw(HexDigit(c as int / 16)), Raw(HexDigit(c as int % 16))],
           {RawControl}, rest, true)
    else Turn([Raw(c)], {}, rest, true)
  }

  /** A turn outside strings. */
  function Beyond(c: char, rest: string): (t: Turn)
    ensures |t.rest| <= |rest|
  {
    if c == '"' then Turn([Open], {}, rest, true)
    else if c == ',' && Closes(NextSignificant(rest)) then Turn([], {TrailingComma}, rest, false)
    else if c == '/' && rest != "" && rest[0] == '/' then Turn([], {Comment}, AfterLine(rest), false)
    else if c == '/' && rest != "" && rest[0] == '*' then Turn([], {Comment}, AfterBlock(rest[1..]), false)
    else Turn([Outside(c)], {}, rest, false)
  }

  function Advance(s: string, inString: bool): (t: Turn)
    requires s != ""
    ensures |t.rest| < |s|
  {
    if inString then Inside(s[0], s[1..]) else Beyond(s[0], s[1..])
  }

  /** The outcome of a pass: its output as text and as pieces, and the repairs made. */
  datatype Pass = Pass(text: string, pieces: seq<Piece>, repairs: set<Repair>)

  function Scan(s: string, inString: bool): Pass
    decreases |s|
  {
    if s == "" then Pass("", [], {})
    else
      var t := Advance(s, inString);
      var tail := Scan(t.rest, t.inString);
      Pass(Text(t.out) + tail.text, t.out + tail.pieces, t.repairs + tail.repairs)
  }

  lemma {:induction false} TextConcat(a: seq<Piece>, b: seq<Piece>)
    ensures Text(a + b) == Text(a) + Text(b)
  {
    if a == [] {
      assert a + b == b;
    } else {
      assert (a + b)[1..] == a[1..] + b;
      TextConcat(a[1..], b);
    }
  }

  lemma {:induction false} TextOfPieces(s: string, inString: bool)
    ensures Text(Scan(s, inString).pieces) == Scan(s, inString).text
    decreases |s|
  {
    if s != "" {
      var t := Advance(s, inString);
      TextOfPieces(t.rest, t.inString);
      TextConcat(t.out, Scan(t.rest, t.inString).pieces);
    }
  }

  // ---- The reference lexer agrees with the pass ----

  function NextMode(p: Piece, inString: bool): bool {
    p.Open? || (inString && !p.Close?)
  }

  /** The lexer, in the mode `inString`, can produce `p`. */
  predicate Allowed(p: Piece, inString: bool) {
    match p
    case Outside(c) => !inString && c != '"'
    case Open => !inString
    case Raw(c) => inString && c != '"' && c != '\\'
    case Escape(_) => inString
    case Close => inString
  }

  predicate Nested(pieces: seq<Piece>, inString: bool) {
    pieces == [] || (Allowed(pieces[0], inString) && Nested(pieces[1..], NextMode(pieces[0], inString)))
  }

  /** The mode after `pieces`. */
  function After(pieces: seq<Piece>, inString: bool): bool {
    if pieces == [] then inString else After(pieces[1..], NextMode(pieces[0], inString))
  }

  lemma {:induction false} NestedConcat(a: seq<Piece>, b: seq<Piece>, inString: bool)
    requires Nested(a, inString) && Nested(b, After(a, inString))
    ensures Nested(a + b, inString)
  {
    if a == [] {
      assert a + b == b;
    } else {
      assert (a + b)[1..] == a[1..] + b;
      NestedConcat(a[1..], b, NextMode(a[0], inString));
    }
  }

  lemma {:induction false} LexOfText(pieces: seq<Piece>, inString: bool)
    requires Nested(pieces, inString)
    ensures Lex(Text(pieces), inString) == pieces
  {
    if pieces != [] {
      var head, tail := PieceText(pieces[0]), Text(pieces[1..]);
      LexOfText(pieces[1..], NextMode(pieces[0], inString));
      assert (head + tail)[|head|..] == tail;
      assert pieces == [pieces[0]] + pieces[1..];
    }
  }

  /** Pieces of a string body that are neither a quotation mark nor a lone backslash. */
  lemma {:induction false} BodyIsNested(pieces: seq<Piece>)
    requires forall p | p in pieces :: p.Escape? || (p.Raw? && p.c != '"' && p.c != '\\')
    ensures Nested(pieces, true) && After(pieces, true)
  {
    if pieces != [] {
      BodyIsNested(pieces[1..]);
    }
  }

  lemma HexDigitIsPlain(n: nat)
    requires n < 16
    ensures HexDigit(n) > ' ' && HexDigit(n) != '"' && HexDigit(n) != '\\'
  {
  }

  lemma AdvanceIsNested(s: string, inString: bool)
    requires s != ""
    ensures var t := Advance(s, inString);
            Nested(t.out, inString) && (t.rest != "" ==> After(t.out, inString) == t.inString)
  {
    var t := Advance(s, inString);
    if t.inString && inString {
      if IsControl(s[0]) {
        HexDigitIsPlain(s[0] as int / 16);
        HexDigitIsPlain(s[0] as int % 16);
      }
      BodyIsNested(t.out);
    }
  }

  lemma {:induction false} ScanIsNested(s: string, inString: bool)
    ensures Nested(Scan(s, inString).pieces, inString)
    decreases |s|
  {
    if s != "" {
      var t := Advance(s, inString);
      AdvanceIsNested(s, inString);
      ScanIsNested(t.rest, t.inString);
      NestedConcat(t.out, Scan(t.rest, t.inString).pieces, inString);
    }
  }

  /** A strict lexer run over the repaired text enters and leaves strings exactly where the pass did. */
  lemma LexerAgrees(s: string, inString: bool)
    ensures Lex(Scan(s, inString).text, inString) == Scan(s, inString).pieces
  {
    ScanIsNested(s, inString);
    TextOfPieces(s, inString);
    LexOfText(Scan(s, inString).pieces, inString);
  }

  predicate LegalPiece(p: Piece) {
    (p.Escape? ==> IsValidEscape(p.c)) && p != Raw('\n')
  }

  lemma AdvanceIsLegal(s: string, inString: bool)
    requires s != ""
    ensures forall p | p in Advance(s, inString).out :: LegalPiece(p)
  {
    if inString && IsControl(s[0]) {
      HexDigitIsPlain(s[0] as int / 16);
      HexDigitIsPlain(s[0] as int % 16);
    }
  }

  lemma {:induction false} ScanIsLegal(s: string, inString: bool)
    ensures forall p | p in Scan(s, inString).pieces :: LegalPiece(p)
    decreases |s|
  {
    if s != "" {
      AdvanceIsLegal(s, inString);
      ScanIsLegal(Advance(s, inString).rest, Advance(s, inString).inString);
    }
  }

  /** Every escape the lexer meets in the repaired text is a legal one, and no string holds a raw newline. */
  lemma EscapesAreLegal(s: string, inString: bool)
    ensures forall p | p in Lex(Scan(s, inString).text, inString) :: LegalPiece(p)
  {
    LexerAgrees(s, inString);
    ScanIsLegal(s, inString);
  }

  /** The pass meets, inside a string, a backslash directly before a control other than newline. */
  predicate EscapesControl(s: string, inString: bool)
    decreases |s|
  {
    s != "" &&
    (|| (inString && s[0] == '\\' && |s| > 1 && IsControl(s[1]) && s[1] != '\n')
     || EscapesControl(Advance(s, inString).rest, Advance(s, inString).inString))
  }

  predicate HasRawControl(pieces: seq<Piece>) {
    exists p | p in pieces :: p.Raw? && IsControl(p.c)
  }

  lemma AdvanceRawControl(s: string, inString: bool)
    requires s != ""
    ensures HasRawControl(Advance(s, inString).out) <==>
              inString && s[0] == '\\' && |s| > 1 && IsControl(s[1]) && s[1] != '\n'
  {
    var t := Advance(s, inString);
    if inString && s[0] == '\\' && |s| > 1 && IsControl(s[1]) && s[1] != '\n' {
      assert t.out[0] == Raw(s[1]);
    }
    if inString && IsControl(s[0]) {
      HexDigitIsPlain(s[0] as int / 16);
      HexDigitIsPlain(s[0] as int % 16);
    }
  }

  /** A repaired string holds a raw control exactly when the pass met a backslash before one. */
  lemma {:induction false} RawControlIffEscaped(s: string, inString: bool)
    ensures HasRawControl(Lex(Scan(s, inString).text, inString)) <==> EscapesControl(s, inString)
    decreases |s|
  {
    LexerAgrees(s, inString);
    if s != "" {
      var t := Advance(s, inString);
      AdvanceRawControl(s, inString);
      RawControlIffEscaped(t.rest, t.inString);
      LexerAgrees(t.rest, t.inString);
      RawControlConcat(t.out, Scan(t.rest, t.inString).pieces);
    }
  }

  lemma RawControlConcat(a: seq<Piece>, b: seq<Piece>)
    ensures HasRawControl(a + b) <==> HasRawControl(a) || HasRawControl(b)
  {
    forall p ensures p in a + b <==> p in a || p in b {
    }
  }

  /** A source with no such pair anywhere, inside strings or not, is repaired to strings without raw controls. */
  lemma {:induction false} NoEscapedControls(s: string, inString: bool)
    requires forall i | 0 <= i < |s| - 1 && s[i] == '\\' :: s[i + 1] == '\n' || !IsControl(s[i + 1])
    ensures !HasRawControl(Lex(Scan(s, inString).text, inString))
    decreases |s|
  {
    RawControlIffEscaped(s, inString);
    if s != "" {
      var t := Advance(s, inString);
      AdvanceTakesPrefix(s, inString);
      NoEscapedControls(t.rest, t.inString);
      RawControlIffEscaped(t.rest, t.inString);
    }
  }

  predicate IsSuffix(r: string, s: string) {
    |r| <= |s| && r == s[|s| - |r|..]
  }

  lemma SuffixOfTail(r: string, s: string)
    requires s != "" && IsSuffix(r, s[1..])
    ensures IsSuffix(r, s)
  {
  }

  lemma {:induction false} AfterLineSuffix(s: string)
    ensures IsSuffix(AfterLine(s), s)
  {
    if s != "" {
      if s[0] != '\n' { AfterLineSuffix(s[1..]); }
      SuffixOfTail(AfterLine(s), s);
    }
  }

  lemma {:induction false} AfterBlockSuffix(s: string)
    ensures IsSuffix(AfterBlock(s), s)
  {
    if |s| >= 2 && !(s[0] == '*' && s[1] == '/') {
      AfterBlockSuffix(s[1..]);
      SuffixOfTail(AfterBlock(s), s);
    }
  }

  lemma EasySuffixes(s: string)
    ensures IsSuffix(s, s) && IsSuffix("", s) && (s != "" ==> IsSuffix(s[1..], s))
  {
  }

  lemma InsideTakesPrefix(c: char, rest: string)
    ensures IsSuffix(Inside(c, rest).rest, rest)
  {
    EasySuffixes(rest);
  }

  lemma BeyondTakesPrefix(c: char, rest: string)
    ensures IsSuffix(Beyond(c, rest).rest, rest)
  {
    EasySuffixes(rest);
    AfterLineSuffix(rest);
    if rest != "" {
      AfterBlockSuffix(rest[1..]);
      SuffixOfTail(AfterBlock(rest[1..]), rest);
    }
  }

  /** Each turn consumes a prefix of what is left. */
  lemma AdvanceTakesPrefix(s: string, inString: bool)
    requires s != ""
    ensures IsSuffix(Advance(s, inString).rest, s)
  {
    if inString { InsideTakesPrefix(s[0], s[1..]); } else { BeyondTakesPrefix(s[0], s[1..]); }
    SuffixOfTail(Advance(s, inString).rest, s);
  }

  // ---- Repairs keep the meaning ----

  function HexValue(c: char): int {
    if '0' <= c <= '9' then c as int - '0' as int
    else if 'a' <= c <= 'f' then c as int - 'a' as int + 10
    else if 'A' <= c <= 'F' then c as int - 'A' as int + 10
    else -1
  }

  /** The code a two-character escape stands for (RFC 8259 section 7); -1 for `\u`, which takes more. */
  function SimpleEscape(c: char): int {
    match c
    case 'b' => 8
    case 't' => 9
    case 'n' => 10
    case 'f' => 12
    case 'r' => 13
    case _ => if c in "\"\\/" then c as int else -1
  }

  /** The codes a strict reader takes from a string body. */
  function Decode(body: seq<Piece>): seq<int> {
    if body == [] then []
    else if body[0].Raw? then [body[0].c as int] + Decode(body[1..])
    else if && body[0] == Escape('u') && |body| >= 5
            && forall i | 1 <= i < 5 :: body[i].Raw? && HexValue(body[i].c) >= 0 then
      [4096 * HexValue(body[1].c) + 256 * HexValue(body[2].c) + 16 * HexValue(body[3].c) + HexValue(body[4].c)]
      + Decode(body[5..])
    else if body[0].Escape? then [SimpleEscape(body[0].c)] + Decode(body[1..])
    else []
  }

  /** What a malformed piece of string was meant to hold: the character itself; carriage returns go. */
  function Meant(c: char, rest: string): seq<int> {
    if c == '\\' then (if rest == "" then [] else [rest[0] as int])
    else if c == '\r' then []
    else [c as int]
  }

  /** Whatever a turn repairs inside a string, a strict reader of the output gets the intended characters. */
  lemma TurnKeepsMeaning(s: string)
    requires s != "" && Advance(s, true).repairs != {}
    ensures Decode(Advance(s, true).out) == Meant(s[0], s[1..])
  {
    var t := Advance(s, true);
    if |t.out| == 5 {
      ControlDecodes(s[0]);
    } else if |t.out| == 1 {
      assert t.out[1..] == [];
    }
  }

  lemma ControlDecodes(c: char)
    requires IsControl(c)
    ensures Decode([Escape('u'), Raw('0'), Raw('0'), Raw(HexDigit(c as int / 16)), Raw(HexDigit(c as int % 16))])
         == [c as int]
  {
    HexDigitValue(c as int / 16);
    HexDigitValue(c as int % 16);
    var body := [Escape('u'), Raw('0'), Raw('0'), Raw(HexDigit(c as int / 16)), Raw(HexDigit(c as int % 16))];
    assert HexValue('0') == 0 && body[5..] == [];
  }

  lemma HexDigitValue(n: nat)
    requires n < 16
    ensures HexValue(HexDigit(n)) == n
  {
  }

  predicate OccursAt(s: string, mark: string, k: nat) {
    k + |mark| <= |s| && s[k..k + |mark|] == mark
  }

  /** `indexOf`: the first place at or after `from` where `mark` occurs, or -1. */
  function IndexOf(s: string, mark: string, from: nat): (r: int)
    ensures r == -1 || (from <= r && OccursAt(s, mark, r))
    ensures forall k | from <= k && (r == -1 || k < r) :: !OccursAt(s, mark, k)
    decreases |s| - from
  {
    if from + |mark| > |s| then -1
    else if OccursAt(s, mark, from) then from
    else IndexOf(s, mark, from + 1)
  }

  lemma {:induction false} AfterLineIsIndexOf(s: string, from: nat)
    requires from <= |s|
    ensures AfterLine(s[from..]) == if IndexOf(s, "\n", from) == -1 then "" else s[IndexOf(s, "\n", from) + 1..]
    decreases |s| - from
  {
    if from < |s| {
      assert s[from..from + 1] == [s[from]];
      AfterLineIsIndexOf(s, from + 1);
    }
  }

  lemma {:induction false} AfterBlockIsIndexOf(s: string, from: nat)
    requires from <= |s|
    ensures AfterBlock(s[from..]) == if IndexOf(s, "*/", from) == -1 then "" else s[IndexOf(s, "*/", from) + 2..]
    decreases |s| - from
  {
    if from + 2 <= |s| {
      var tail := s[from..];
      assert tail[1..] == s[from + 1..] && tail[2..] == s[from + 2..];
      assert tail[0] == s[from] && tail[1] == s[from + 1];
      BlockEndsAt(s, from);
      if !OccursAt(s, "*/", from) {
        AfterBlockIsIndexOf(s, from + 1);
      }
    }
  }

  lemma BlockEndsAt(s: string, from: nat)
    requires from + 2 <= |s|
    ensures OccursAt(s, "*/", from) <==> s[from] == '*' && s[from + 1] == '/'
  {
    assert s[from..from + 2] == [s[from], s[from + 1]];
  }

  /** What follows a comment that starts with `mark` and is searched from `from`, `indexOf` deciding where it ends. */
  function AfterMark(s: string, mark: string, from: nat): string {
    var end := IndexOf(s, mark, from);
    if end == -1 then "" else s[end + |mark|..]
  }

  lemma CommentTurn(s: string)
    requires |s| >= 2 && s[0] == '/' && (s[1] == '/' || s[1] == '*')
    ensures Advance(s, false) ==
              Turn([], {Comment}, if s[1] == '/' then AfterMark(s, "\n", 1) else AfterMark(s, "*/", 2), false)
  {
    if s[1] == '/' { AfterLineIsIndexOf(s, 1); } else { AfterBlockIsIndexOf(s, 2); }
  }

  // ---- Valid JSON is left alone ----

  /** JSON texts by construction, following the grammar of RFC 8259 sections 2 to 7. */
  datatype StringItem = Plain(c: char) | Escaped(c: char) | Unicode(hex: string)

  datatype Number = Number(minus: bool, integer: string, frac: string, exp: string)

  datatype Value =
    | Literal(name: string)
    | Num(number: Number)
    | Str(items: seq<StringItem>)
    | Array(elements: Elements)
    | Object(members: Members)

  /** The elements between the brackets of an array, with the whitespace around each. */
  datatype Elements =
    | NoElements(space: string)
    | LastElement(before: string, value: Value, after: string)
    | Element(before: string, value: Value, after: string, rest: Elements)

  /** The members between the braces of an object, with the whitespace around each part. */
  datatype Members =
    | NoMembers(space: string)
    | LastMember(before: string, key: seq<StringItem>, mid: string, gap: string, value: Value, after: string)
    | Member(before: string, key: seq<StringItem>, mid: string, gap: string, value: Value, after: string, rest: Members)

  predicate IsSpace(s: string) {
    forall c | c in s :: IsJsonWhitespace(c)
  }

  predicate AllDigits(s: string) {
    s != "" && forall c | c in s :: '0' <= c <= '9'
  }

  predicate IsItem(item: StringItem) {
    match item
    case Plain(c) => !IsControl(c) && c != '"' && c != '\\'
    case Escaped(c) => c in "\"\\/bfnrt"
    case Unicode(hex) => |hex| == 4 && forall c | c in hex :: HexValue(c) >= 0
  }

  predicate IsNumber(n: Number) {
    && AllDigits(n.integer) && (n.integer[0] == '0' ==> |n.integer| == 1)
    && (n.frac != "" ==> n.frac[0] == '.' && AllDigits(n.frac[1..]))
    && (n.exp != "" ==>
          && n.exp[0] in "eE"
          && var rest := n.exp[1..]; AllDigits(if rest != "" && rest[0] in "+-" then rest[1..] else rest))
  }

  predicate IsValue(v: Value) {
    match v
    case Literal(name) => name in ["true", "false", "null"]
    case Num(n) => IsNumber(n)
    case Str(items) => forall item | item in items :: IsItem(item)
    case Array(elements) => IsElements(elements)
    case Object(members) => IsMembers(members)
  }

  predicate IsElements(e: Elements) {
    match e
    case NoElements(space) => IsSpace(space)
    case LastElement(before, value, after) => IsSpace(before) && IsValue(value) && IsSpace(after)
    case Element(before, value, after, rest) =>
      IsSpace(before) && IsValue(value) && IsSpace(after) && !rest.NoElements? && IsElements(rest)
  }

  predicate IsMembers(m: Members) {
    match m
    case NoMembers(space) => IsSpace(space)
    case LastMember(before, key, mid, gap, value, after) =>
      && IsSpace(before) && IsSpace(mid) && IsSpace(gap) && IsSpace(after)
      && (forall item | item in key :: IsItem(item)) && IsValue(value)
    case Member(before, key, mid, gap, value, after, rest) =>
      && IsSpace(before) && IsSpace(mid) && IsSpace(gap) && IsSpace(after)
      && (forall item | item in key :: IsItem(item)) && IsValue(value)
      && !rest.NoMembers? && IsMembers(rest)
  }

  function PrintItem(item: StringItem): string {
    match item
    case Plain(c) => [c]
    case Escaped(c) => ['\\', c]
    case Unicode(hex) => "\\u" + hex
  }

  function PrintItems(items: seq<StringItem>): string {
    if items == [] then "" else PrintItem(items[0]) + PrintItems(items[1..])
  }

  function PrintString(items: seq<StringItem>): string {
    "\"" + (PrintItems(items) + "\"")
  }

  function Print(v: Value): string {
    match v
    case Literal(name) => name
    case Num(n) => (if n.minus then "-" else "") + n.integer + n.frac + n.exp
    case Str(items) => PrintString(items)
    case Array(elements) => "[" + (PrintElements(elements) + "]")
    case Object(members) => "{" + (PrintMembers(members) + "}")
  }

  function PrintElements(e: Elements): string {
    match e
    case NoElements(space) => space
    case LastElement(before, value, after) => before + (Print(value) + after)
    case Element(before, value, after, rest) => before + (Print(value) + (after + ("," + PrintElements(rest))))
  }

  /** A non-empty member list from its first key on. */
  function PrintFromKey(m: Members): string
    requires !m.NoMembers?
    decreases m, 0
  {
    PrintString(m.key) + (m.mid + (":" + (m.gap + (Print(m.value) + (m.after +
      if m.LastMember? then "" else "," + PrintMembers(m.rest))))))
  }

  function PrintMembers(m: Members): string
    decreases m, 1
  {
    if m.NoMembers? then m.space else m.before + PrintFromKey(m)
  }

  /** Scanning `s + post` outputs `s` as it is and then does what scanning `post` does, in the given modes. */
  predicate Copies(s: string, from: bool, post: string, to: bool) {
    && Scan(s + post, from).text == s + Scan(post, to).text
    && Scan(s + post, from).repairs == Scan(post, to).repairs
  }

  lemma CopiesNothing(post: string, mode: bool)
    ensures Copies("", mode, post, mode)
  {
    assert "" + post == post;
  }

  lemma Chain(x: string, a: string, y: string, b: string, z: string)
    requires x == a + y && y == b + z
    ensures x == (a + b) + z
  {
  }

  lemma CopiesConcat(a: string, b: string, m0: bool, m1: bool, m2: bool, post: string)
    requires Copies(a, m0, b + post, m1) && Copies(b, m1, post, m2)
    ensures Copies(a + b, m0, post, m2)
  {
    assert (a + b) + post == a + (b + post);
    Chain(Scan(a + (b + post), m0).text, a, Scan(b + post, m1).text, b, Scan(post, m2).text);
  }

  /** One turn that outputs exactly what it consumes. */
  lemma CopiesTurn(s: string, from: bool, post: string, to: bool)
    requires s != "" && Advance(s + post, from).rest == post && Advance(s + post, from).inString == to
    requires Advance(s + post, from).repairs == {} && Text(Advance(s + post, from).out) == s
    ensures Copies(s, from, post, to)
  {
  }

  /** Characters outside strings that the pass has no opinion about. */
  predicate Inert(s: string) {
    forall c | c in s :: c != '"' && c != ',' && c != '/'
  }

  lemma {:induction false} CopiesInert(s: string, post: string)
    requires Inert(s)
    ensures Copies(s, false, post, false)
  {
    if s == "" {
      CopiesNothing(post, false);
    } else {
      var head, tail := [s[0]], s[1..];
      assert s == head + tail && (head + (tail + post))[1..] == tail + post;
      assert [Outside(s[0])][1..] == [];
      assert s[0] in s && forall c | c in tail :: c in s;
      CopiesTurn(head, false, tail + post, false);
      CopiesInert(tail, post);
      CopiesConcat(head, tail, false, false, false, post);
    }
  }

  lemma CopiesPlainChar(c: char, post: string)
    requires !IsControl(c) && c != '"' && c != '\\'
    ensures Copies([c], true, post, true)
  {
    assert ([c] + post)[1..] == post && [Raw(c)][1..] == [];
    CopiesTurn([c], true, post, true);
  }

  lemma CopiesItem(item: StringItem, post: string)
    requires IsItem(item)
    ensures Copies(PrintItem(item), true, post, true)
  {
    match item
    case Plain(c) =>
      CopiesPlainChar(c, post);
    case Escaped(c) =>
      CopiesEscape(c, post);
    case Unicode(hex) =>
      CopiesEscape('u', hex + post);
      CopiesPlain(hex, post);
      CopiesConcat("\\u", hex, true, true, true, post);
  }

  lemma CopiesEscape(c: char, post: string)
    requires IsValidEscape(c)
    ensures Copies(['\\', c], true, post, true)
  {
    var s := ['\\', c] + post;
    assert s[1..][1..] == post && [Escape(c)][1..] == [];
    CopiesTurn(['\\', c], true, post, true);
  }

  lemma {:induction false} CopiesPlain(s: string, post: string)
    requires forall c | c in s :: !IsControl(c) && c != '"' && c != '\\'
    ensures Copies(s, true, post, true)
  {
    if s == "" {
      CopiesNothing(post, true);
    } else {
      assert s == [s[0]] + s[1..] && s[0] in s && forall c | c in s[1..] :: c in s;
      CopiesPlainChar(s[0], s[1..] + post);
      CopiesPlain(s[1..], post);
      CopiesConcat([s[0]], s[1..], true, true, true, post);
    }
  }

  lemma {:induction false} CopiesItems(items: seq<StringItem>, post: string)
    requires forall item | item in items :: IsItem(item)
    ensures Copies(PrintItems(items), true, post, true)
  {
    if items == [] {
      CopiesNothing(post, true);
    } else {
      CopiesItem(items[0], PrintItems(items[1..]) + post);
      CopiesItems(items[1..], post);
      CopiesConcat(PrintItem(items[0]), PrintItems(items[1..]), true, true, true, post);
    }
  }

  lemma CopiesString(items: seq<StringItem>, post: string)
    requires forall item | item in items :: IsItem(item)
    requires Terminates(post)
    ensures Copies(PrintString(items), false, post, false)
  {
    var body := PrintItems(items);
    CopiesClose(post);
    CopiesItems(items, "\"" + post);
    CopiesConcat(body, "\"", true, true, false, post);
    CopiesOpen((body + "\"") + post);
    CopiesConcat("\"", body + "\"", false, true, false, post);
  }

  lemma CopiesOpen(post: string)
    ensures Copies("\"", false, post, true)
  {
    assert ("\"" + post)[1..] == post && [Open][1..] == [];
    CopiesTurn("\"", false, post, true);
  }

  lemma CopiesClose(post: string)
    requires Terminates(post)
    ensures Copies("\"", true, post, false)
  {
    assert ("\"" + post)[1..] == post && [Close][1..] == [];
    CopiesTurn("\"", true, post, false);
  }

  lemma CopiesComma(post: string)
    requires !Closes(NextSignificant(post))
    ensures Copies(",", false, post, false)
  {
    assert ("," + post)[1..] == post && [Outside(',')][1..] == [];
    CopiesTurn(",", false, post, false);
  }

  lemma {:induction false} SignificantAfterSpace(space: string, post: string)
    requires IsSpace(space)
    ensures NextSignificant(space + post) == NextSignificant(post)
  {
    if space == "" {
      assert space + post == post;
    } else {
      assert space[0] in space && (space + post)[1..] == space[1..] + post;
      SignificantAfterSpace(space[1..], post);
    }
  }

  lemma SpaceIsInert(space: string)
    requires IsSpace(space)
    ensures Inert(space)
  {
  }

  lemma InertConcat(a: string, b: string)
    requires Inert(a) && Inert(b)
    ensures Inert(a + b)
  {
  }

  lemma InertAfter(first: char, s: string)
    requires s != "" && s[0] == first && first != '"' && first != ',' && first != '/' && Inert(s[1..])
    ensures Inert(s)
  {
    assert s == [first] + s[1..];
  }

  lemma DigitsAreInert(s: string)
    requires AllDigits(s)
    ensures Inert(s)
  {
  }

  /** The optional parts of a number: a point or an `e`, an optional sign, digits. */
  lemma PartsAreInert(n: Number)
    requires IsNumber(n)
    ensures Inert(n.frac) && Inert(n.exp)
  {
    if n.frac != "" {
      DigitsAreInert(n.frac[1..]);
      InertAfter('.', n.frac);
    }
    if n.exp != "" {
      var rest := n.exp[1..];
      if rest != "" && rest[0] in "+-" {
        DigitsAreInert(rest[1..]);
        InertAfter(rest[0], rest);
      } else {
        DigitsAreInert(rest);
      }
      InertAfter(n.exp[0], n.exp);
    }
  }

  lemma NumberIsInert(n: Number)
    requires IsNumber(n)
    ensures var s := Print(Num(n));
            Inert(s) && s != "" && !IsJsonWhitespace(s[0]) && s[0] != '}' && s[0] != ']'
  {
    var sign := if n.minus then "-" else "";
    assert n.integer[0] in n.integer;
    DigitsAreInert(n.integer);
    PartsAreInert(n);
    InertConcat(sign, n.integer);
    InertConcat(sign + n.integer, n.frac);
    InertConcat(sign + n.integer + n.frac, n.exp);
  }

  /** The text of a value starts with something that neither is whitespace nor closes anything. */
  lemma ValueStarts(v: Value, post: string)
    requires IsValue(v)
    ensures Print(v) != "" && NextSignificant(Print(v) + post) == Some(Print(v)[0])
         && Print(v)[0] != '}' && Print(v)[0] != ']'
  {
    if v.Num? { NumberIsInert(v.number); }
  }

  lemma Reassociate(a: string, b: string, c: string, d: string)
    ensures (a + (b + c)) + d == a + (b + (c + d))
  {
  }

  lemma ElementsStart(e: Elements, post: string)
    requires IsElements(e) && !e.NoElements?
    ensures !Closes(NextSignificant(PrintElements(e) + post))
  {
    var tail := match e
                case LastElement(_, _, after) => after
                case Element(_, _, after, rest) => after + ("," + PrintElements(rest))
                case NoElements(_) => "";
    Reassociate(e.before, Print(e.value), tail, post);
    SignificantAfterSpace(e.before, Print(e.value) + (tail + post));
    ValueStarts(e.value, tail + post);
  }

  lemma StartsPlainly(t: string, post: string)
    requires t != "" && !IsJsonWhitespace(t[0])
    ensures NextSignificant(t + post) == Some(t[0])
  {
  }

  lemma MembersStart(m: Members, post: string)
    requires IsMembers(m) && !m.NoMembers?
    ensures NextSignificant(PrintMembers(m) + post) == Some('"')
  {
    var tail := PrintFromKey(m);
    assert tail[0] == PrintString(m.key)[0] == '"';
    assert (m.before + tail) + post == m.before + (tail + post);
    SignificantAfterSpace(m.before, tail + post);
    StartsPlainly(tail, post);
  }

  lemma {:induction false} CopiesValue(v: Value, post: string)
    requires IsValue(v) && Terminates(post)
    ensures Copies(Print(v), false, post, false)
    decreases v, 0
  {
    match v
    case Literal(_) => CopiesInert(Print(v), post);
    case Num(n) =>
      NumberIsInert(n);
      CopiesInert(Print(v), post);
    case Str(items) => CopiesString(items, post);
    case Array(elements) =>
      CopiesInert("]", post);
      CopiesElements(elements, "]" + post);
      CopiesConcat(PrintElements(elements), "]", false, false, false, post);
      CopiesInert("[", (PrintElements(elements) + "]") + post);
      CopiesConcat("[", PrintElements(elements) + "]", false, false, false, post);
    case Object(members) =>
      CopiesInert("}", post);
      CopiesMembers(members, "}" + post);
      CopiesConcat(PrintMembers(members), "}", false, false, false, post);
      CopiesInert("{", (PrintMembers(members) + "}") + post);
      CopiesConcat("{", PrintMembers(members) + "}", false, false, false, post);
  }

  /** A value, the whitespace after it, and a `tail` that the rest of the pass copies. */
  lemma {:induction false} CopiesValueThen(v: Value, after: string, tail: string, post: string)
    requires IsValue(v) && IsSpace(after) && Terminates(tail + post)
    requires Copies(tail, false, post, false)
    ensures Copies(Print(v) + (after + tail), false, post, false)
    decreases v, 1
  {
    CopiesSpaceThen(after, tail, post);
    TerminatesAfterSpace(after, tail, post);
    CopiesValue(v, (after + tail) + post);
    CopiesConcat(Print(v), after + tail, false, false, false, post);
  }

  lemma TerminatesAfterSpace(space: string, tail: string, post: string)
    requires IsSpace(space) && Terminates(tail + post)
    ensures Terminates((space + tail) + post)
  {
    SignificantAfterSpace(space, tail + post);
    assert space + (tail + post) == (space + tail) + post;
  }

  lemma CopiesSpaceThen(space: string, tail: string, post: string)
    requires IsSpace(space) && Copies(tail, false, post, false)
    ensures Copies(space + tail, false, post, false)
  {
    SpaceIsInert(space);
    CopiesInert(space, tail + post);
    CopiesConcat(space, tail, false, false, false, post);
  }

  lemma {:induction false} CopiesElements(e: Elements, post: string)
    requires IsElements(e) && NextSignificant(post) == Some(']')
    ensures Copies(PrintElements(e), false, post, false)
    decreases e, 2
  {
    match e
    case NoElements(space) =>
      SpaceIsInert(space);
      CopiesInert(space, post);
    case LastElement(before, value, after) =>
      CopiesNothing(post, false);
      assert "" + post == post && after + "" == after;
      CopiesValueThen(value, after, "", post);
      CopiesSpaceThen(before, Print(value) + after, post);
    case Element(before, value, after, rest) =>
      CopiesElements(rest, post);
      ElementsStart(rest, post);
      CopiesComma(PrintElements(rest) + post);
      CopiesConcat(",", PrintElements(rest), false, false, false, post);
      var tail := "," + PrintElements(rest);
      assert (tail + post)[0] == ',';
      CopiesValueThen(value, after, tail, post);
      CopiesSpaceThen(before, Print(value) + (after + tail), post);
  }

  /** The whitespace, colon and whitespace of a member, before a copied `tail`. */
  lemma CopiesColonThen(mid: string, gap: string, tail: string, post: string)
    requires IsSpace(mid) && IsSpace(gap) && Copies(tail, false, post, false)
    ensures Copies(mid + (":" + (gap + tail)), false, post, false)
  {
    CopiesSpaceThen(gap, tail, post);
    CopiesInert(":", (gap + tail) + post);
    CopiesConcat(":", gap + tail, false, false, false, post);
    CopiesSpaceThen(mid, ":" + (gap + tail), post);
  }

  lemma ColonTerminates(mid: string, tail: string, post: string)
    requires IsSpace(mid)
    ensures Terminates((mid + (":" + tail)) + post)
  {
    assert (mid + (":" + tail)) + post == mid + ((":" + tail) + post);
    StartsPlainly(":" + tail, post);
    SignificantAfterSpace(mid, (":" + tail) + post);
  }

  /** A member's whitespace and key, before the copied rest of the member. */
  lemma CopiesKeyThen(before: string, key: seq<StringItem>, tail: string, post: string)
    requires IsSpace(before) && (forall item | item in key :: IsItem(item))
    requires Copies(tail, false, post, false) && Terminates(tail + post)
    ensures Copies(before + (PrintString(key) + tail), false, post, false)
  {
    CopiesString(key, tail + post);
    CopiesConcat(PrintString(key), tail, false, false, false, post);
    CopiesSpaceThen(before, PrintString(key) + tail, post);
  }

  lemma {:induction false} CopiesMembers(m: Members, post: string)
    requires IsMembers(m) && NextSignificant(post) == Some('}')
    ensures Copies(PrintMembers(m), false, post, false)
    decreases m, 2
  {
    match m
    case NoMembers(space) =>
      SpaceIsInert(space);
      CopiesInert(space, post);
    case LastMember(before, key, mid, gap, value, after) =>
      CopiesNothing(post, false);
      assert "" + post == post;
      CopiesMemberThen(m, "", post);
    case Member(before, key, mid, gap, value, after, rest) =>
      CopiesMembers(rest, post);
      MembersStart(rest, post);
      CopiesComma(PrintMembers(rest) + post);
      CopiesConcat(",", PrintMembers(rest), false, false, false, post);
      assert (("," + PrintMembers(rest)) + post)[0] == ',';
      CopiesMemberThen(m, "," + PrintMembers(rest), post);
  }

  /** One member before a copied `tail`: from its end to its start. */
  lemma CopiesMemberThen(m: Members, tail: string, post: string)
    requires IsMembers(m) && !m.NoMembers?
    requires Copies(tail, false, post, false) && Terminates(tail + post)
    ensures Copies(m.before + (PrintString(m.key) + (m.mid + (":" + (m.gap + (Print(m.value) + (m.after + tail)))))),
                   false, post, false)
    decreases m, 1
  {
    CopiesValueThen(m.value, m.after, tail, post);
    var value := Print(m.value) + (m.after + tail);
    CopiesColonThen(m.mid, m.gap, value, post);
    ColonTerminates(m.mid, m.gap + value, post);
    CopiesKeyThen(m.before, m.key, m.mid + (":" + (m.gap + value)), post);
  }

  // ---- Fences and surrounding prose ----

  predicate IsFenceName(c: char) {
    'A' <= c <= 'Z' || 'a' <= c <= 'z' || '0' <= c <= '9' || c == '_' || c == '-'
  }

  predicate IsBlank(c: char) {
    c == ' ' || c == '\t'
  }

  function DropWhile(s: string, f: char -> bool): string {
    if s != "" && f(s[0]) then DropWhile(s[1..], f) else s
  }

  function DropWhileEnd(s: string, f: char -> bool): string {
    if s != "" && f(s[|s| - 1]) then DropWhileEnd(s[..|s| - 1], f) else s
  }

  function AfterLineEnd(s: string): Option<string> {
    if "\n" <= s then Some(s[1..]) else if "\r\n" <= s then Some(s[2..]) else None
  }

  /** The text after a leading code fence and its line end. */
  function AfterFence(s: string): Option<string> {
    if "```" <= s then AfterLineEnd(DropWhile(DropWhile(s[3..], IsFenceName), IsBlank)) else None
  }

  predicate EndsWith(s: string, end: string) {
    |s| >= |end| && s[|s| - |end|..] == end
  }

  function BeforeLineEnd(s: string): Option<string> {
    if EndsWith(s, "\r\n") then Some(s[..|s| - 2]) else if EndsWith(s, "\n") then Some(s[..|s| - 1]) else None
  }

  /** The text before a trailing code fence and the line end it follows. */
  function BeforeFence(s: string): Option<string> {
    var t := DropWhileEnd(s, IsBlank);
    if EndsWith(t, "```") then BeforeLineEnd(DropWhileEnd(t[..|t| - 3], IsBlank)) else None
  }

  /** The last place where `c` occurs, or -1. */
  function LastIndexOf(s: string, c: char): (r: int)
    ensures -1 <= r < |s| && (r >= 0 ==> s[r] == c) && forall k | r < k < |s| :: s[k] != c
  {
    if s == "" then -1 else if s[|s| - 1] == c then |s| - 1 else LastIndexOf(s[..|s| - 1], c)
  }

  /** From the first opening brace to the last closing one, if there is anything around them. */
  function Unwrap(s: string): (string, set<Repair>) {
    var first, last := IndexOf(s, "{", 0), LastIndexOf(s, '}');
    if first != -1 && last > first && (first > 0 || last < |s| - 1) then (s[first..last + 1], {TrimmedWrapper})
    else (s, {})
  }

  /** What the pass is run on, and the repairs that stripping fences and prose amounts to. */
  function Prepare(source: string): (string, set<Repair>) {
    var t0 := TextTools.Trim(source);
    var t1 := AfterFence(t0).GetOr(t0);
    var t2 := BeforeFence(t1).GetOr(t1);
    var fence := if AfterFence(t0).Some? || BeforeFence(t1).Some? then {NestedFence} else {};
    (Unwrap(t2).0, fence + Unwrap(t2).1)
  }

  function Repaired(source: string): (string, set<Repair>) {
    var (text, repairs) := Prepare(source);
    (Scan(text, false).text, repairs + Scan(text, false).repairs)
  }

  lemma EndsDiffer(s: string, end: string)
    requires s != "" && end != "" && s[|s| - 1] != end[|end| - 1]
    ensures !EndsWith(s, end)
  {
    if |s| >= |end| {
      assert s[|s| - |end|..][|end| - 1] == s[|s| - 1];
    }
  }

  lemma BracedIsUnwrapped(s: string)
    requires |s| >= 2 && s[0] == '{' && s[|s| - 1] == '}'
    ensures Unwrap(s) == (s, {})
  {
    assert s[0..1] == "{" && OccursAt(s, "{", 0);
    assert IndexOf(s, "{", 0) == 0 && LastIndexOf(s, '}') == |s| - 1;
  }

  lemma BracedIsPrepared(s: string)
    requires |s| >= 2 && s[0] == '{' && s[|s| - 1] == '}'
    ensures Prepare(s) == (s, {})
  {
    assert TextTools.Trim(s) == s;
    EndsDiffer(s, "```");
    BracedIsUnwrapped(s);
    assert Prepare(s).1 == {};
  }

  /**
   * The repair leaves valid JSON alone: any object text of RFC 8259, with any nesting and any
   * whitespace inside its braces, comes back as it went in, with no repairs.
   */
  lemma ValidObjectIsUnchanged(members: Members)
    requires IsMembers(members)
    ensures Repaired(Print(Object(members))) == (Print(Object(members)), {})
  {
    CopiesValue(Object(members), "");
    CopiedIsUnchanged(Print(Object(members)));
  }

  lemma CopiedIsUnchanged(s: string)
    requires |s| >= 2 && s[0] == '{' && s[|s| - 1] == '}' && Copies(s, false, "", false)
    ensures Repaired(s) == (s, {})
  {
    BracedIsPrepared(s);
    assert s + "" == s;
  }

  /** A repaired output that is a valid object text is a fixed point of the repair. */
  lemma ValidOutputIsFixed(source: string, members: Members)
    requires IsMembers(members) && Repaired(source).0 == Print(Object(members))
    ensures Repaired(Repaired(source).0) == (Repaired(source).0, {})
  {
    ValidObjectIsUnchanged(members);
  }

  // ---- The loop as written ----

  /** Look past whitespace from `i`. */
  method LookAhead(text: string, i: nat) returns (after: Option<char>)
    requires i <= |text|
    ensures after == NextSignificant(text[i..])
  {
    var j := i;
    while j < |text| && IsJsonWhitespace(text[j])
      invariant i <= j <= |text|
      invariant NextSignificant(text[i..]) == NextSignificant(text[j..])
    {
      assert text[j..][1..] == text[j + 1..];
      j := j + 1;
    }
    after := if j < |text| then Some(text[j]) else None;
  }

  /** The turn at index `i`: what to append, where to go on, in which mode, and what was repaired. */
  ghost predicate TurnAt(text: string, i: nat, inString: bool, add: string, next: nat, mode: bool, made: set<Repair>) {
    && i < next <= |text| && i < |text|
    && var t := Advance(text[i..], inString);
       add == Text(t.out) && text[next..] == t.rest && mode == t.inString && made == t.repairs
  }

  method TurnInside(text: string, i: nat) returns (add: string, next: nat, mode: bool, made: set<Repair>)
    requires i < |text|
    ensures TurnAt(text, i, true, add, next, mode, made)
  {
    var ch := text[i];
    assert text[i..][0] == ch && text[i..][1..] == text[i + 1..];
    add, next, mode, made := "", i + 1, true, {};
    if ch == '\\' {
      if i + 1 == |text| { return "", |text|, true, {DanglingEscape}; }
      var escaped := text[i + 1];
      assert text[i + 1..][1..] == text[i + 2..];
      next := i + 2;
      if IsValidEscape(escaped) {
        add := [ch, escaped];
      } else {
        add := if escaped == '\n' then "\\n" else [escaped];
        made := {InvalidEscape};
      }
    } else if ch == '"' {
      var after := LookAhead(text, i + 1);
      if after == None || after == Some(',') || after == Some('}') || after == Some(']') || after == Some(':') {
        add, mode := "\"", false;
      } else {
        add, made := "\\\"", {InnerQuote};
      }
    } else if ch == '\n' {
      add, made := "\\n", {RawNewline};
    } else if ch == '\r' {
      made := {RawNewline};
    } else if ch == '\t' {
      add, made := "\\t", {RawControl};
    } else if ch < ' ' {
      var code := ch as int;
      add, made := "\\u00" + [HexDigit(code / 16), HexDigit(code % 16)], {RawControl};
      ControlText(code);
    } else {
      add := [ch];
    }
  }

  lemma ControlText(code: nat)
    requires code < 32
    ensures Text([Escape('u'), Raw('0'), Raw('0'), Raw(HexDigit(code / 16)), Raw(HexDigit(code % 16))])
         == "\\u00" + [HexDigit(code / 16), HexDigit(code % 16)]
  {
    var a, b := HexDigit(code / 16), HexDigit(code % 16);
    var digits := [Raw('0'), Raw('0'), Raw(a), Raw(b)];
    RawText(digits, ['0', '0', a, b]);
    assert ([Escape('u')] + digits)[1..] == digits;
    assert Text([Escape('u')] + digits) == "\\u" + ['0', '0', a, b];
    assert "\\u" + ['0', '0', a, b] == "\\u00" + [a, b];
  }

  lemma {:induction false} RawText(pieces: seq<Piece>, s: string)
    requires |pieces| == |s| && forall i | 0 <= i < |s| :: pieces[i] == Raw(s[i])
    ensures Text(pieces) == s
  {
    if s != "" {
      RawText(pieces[1..], s[1..]);
      assert s == [s[0]] + s[1..];
    }
  }

  method TurnBeyond(text: string, i: nat) returns (add: string, next: nat, mode: bool, made: set<Repair>)
    requires i < |text|
    ensures TurnAt(text, i, false, add, next, mode, made)
  {
    var ch := text[i];
    assert text[i..][0] == ch && text[i..][1..] == text[i + 1..];
    if ch == '/' && i + 1 < |text| && (text[i + 1] == '/' || text[i + 1] == '*') {
      next := SkipComment(text, i);
      return "", next, false, {Comment};
    }
    add, next, mode, made := [ch], i + 1, false, {};
    if ch == '"' {
      mode := true;
    } else if ch == ',' {
      var after := LookAhead(text, i + 1);
      if after == Some('}') || after == Some(']') {
        add, made := "", {TrailingComma};
      }
    }
  }

  lemma TwoAt(text: string, i: nat)
    requires i + 1 < |text|
    ensures text[i..][0] == text[i] && text[i..][1..] == text[i + 1..]
    ensures text[i + 1..][0] == text[i + 1] && text[i + 1..][1..] == text[i + 2..]
  {
  }

  /** A line comment at `i` ends where `indexOf` finds the next newline. */
  lemma LineCommentAt(text: string, i: nat)
    requires i + 1 < |text| && text[i] == '/' && text[i + 1] == '/'
    ensures var end := IndexOf(text, "\n", i + 1);
            Advance(text[i..], false) == Turn([], {Comment}, if end == -1 then "" else text[end + 1..], false)
  {
    TwoAt(text, i);
    AfterLineIsIndexOf(text, i + 1);
  }

  /** A block comment at `i` ends where `indexOf` finds its end mark. */
  lemma BlockCommentAt(text: string, i: nat)
    requires i + 1 < |text| && text[i] == '/' && text[i + 1] == '*'
    ensures var end := IndexOf(text, "*/", i + 2);
            Advance(text[i..], false) == Turn([], {Comment}, if end == -1 then "" else text[end + 2..], false)
  {
    TwoAt(text, i);
    AfterBlockIsIndexOf(text, i + 2);
  }

  /** Where the text goes on after the comment at `i`. */
  method SkipComment(text: string, i: nat) returns (next: nat)
    requires i + 1 < |text| && text[i] == '/' && (text[i + 1] == '/' || text[i + 1] == '*')
    ensures i < next <= |text|
    ensures Advance(text[i..], false) == Turn([], {Comment}, text[next..], false)
  {
    if text[i + 1] == '/' {
      var end := IndexOf(text, "\n", i + 1);
      LineCommentAt(text, i);
      next := if end == -1 then |text| else end + 1;
    } else {
      var end := IndexOf(text, "*/", i + 2);
      BlockCommentAt(text, i);
      next := if end == -1 then |text| else end + 2;
    }
    assert text[|text|..] == "";
  }

  method RepairJsonText(source: string) returns (out: string, repairs: set<Repair>)
    ensures (out, repairs) == Repaired(source)
  {
    var (text, stripped) := Prepare(source);
    out, repairs := "", stripped;
    var inString, i := false, 0;
    assert text[0..] == text;
    while i < |text|
      invariant i <= |text|
      invariant out + Scan(text[i..], inString).text == Scan(text, false).text
      invariant repairs + Scan(text[i..], inString).repairs == stripped + Scan(text, false).repairs
    {
      var add, next, mode, made;
      if inString {
        add, next, mode, made := TurnInside(text, i);
      } else {
        add, next, mode, made := TurnBeyond(text, i);
      }
      Chain(Scan(text, false).text, out, Scan(text[i..], inString).text, add, Scan(text[next..], mode).text);
      out, repairs, inString, i := out + add, repairs + made, mode, next;
    }
    assert text[i..] == "" && out + "" == out && repairs + {} == repairs;
  }
}
