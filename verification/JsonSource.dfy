/**
 * The repair pass judged on whole texts. The source is cut into kept characters, dropped commas,
 * dropped comments and strings; what the reference lexer sees in the output is the kept characters,
 * unchanged and in order, and the strings, each holding what its source was meant to hold.
 */
module JsonSource {
  import opened Wrappers
  import opened JsonTolerant

  // ---- The source, cut up ----

  /** A piece of source; `body` is the text of a string between its quotation marks. */
  datatype Segment =
    | Kept(c: char)
    | DroppedComma
    | DroppedComment(text: string)
    | Quoted(body: string, closed: bool)

  function SegmentText(g: Segment): string {
    match g
    case Kept(c) => [c]
    case DroppedComma => ","
    case DroppedComment(text) => text
    case Quoted(body, closed) => "\"" + body + if closed then "\"" else ""
  }

  function SourceText(segments: seq<Segment>): string {
    if segments == [] then "" else SegmentText(segments[0]) + SourceText(segments[1..])
  }

  /**
   * The text of a string up to the quotation mark that ends it: one that no backslash takes along and
   * that a structural character or the end of the text follows.
   */
  function Body(s: string): (b: string)
    ensures |b| <= |s| && (|b| < |s| ==> s[|b|] == '"')
  {
    if s == "" then ""
    else if s[0] == '\\' then (if |s| == 1 then s else s[..2] + Body(s[2..]))
    else if s[0] == '"' && Terminates(s[1..]) then ""
    else [s[0]] + Body(s[1..])
  }

  /** What is left of a text that starts with a comment: after its line, or after its end mark. */
  function AfterComment(s: string): (r: string)
    requires |s| >= 2 && s[0] == '/' && (s[1] == '/' || s[1] == '*')
    ensures |r| < |s|
  {
    if s[1] == '/' then AfterMark(s, "\n", 1) else AfterMark(s, "*/", 2)
  }

  predicate IsComment(s: string) {
    |s| >= 2 && s[0] == '/' && (s[1] == '/' || s[1] == '*')
  }

  /** The segment that a text starts with. */
  function First(s: string): (g: Segment)
    requires s != ""
    ensures 0 < |SegmentText(g)| <= |s|
  {
    if s[0] == '"' then Quoted(Body(s[1..]), |Body(s[1..])| < |s| - 1)
    else if s[0] == ',' && Closes(NextSignificant(s[1..])) then DroppedComma
    else if IsComment(s) then DroppedComment(s[..|s| - |AfterComment(s)|])
    else Kept(s[0])
  }

  function AfterFirst(s: string): (rest: string)
    requires s != ""
    ensures |rest| < |s|
  {
    s[|SegmentText(First(s))|..]
  }

  function Segments(s: string): seq<Segment>
    decreases |s|
  {
    if s == "" then [] else [First(s)] + Segments(AfterFirst(s))
  }

  lemma {:induction false} BodyIsPrefix(s: string)
    ensures Body(s) == s[..|Body(s)|]
  {
    if s == "" {
    } else if s[0] == '\\' {
      if |s| > 1 {
        BodyIsPrefix(s[2..]);
        assert s[..2 + |Body(s[2..])|] == s[..2] + s[2..][..|Body(s[2..])|];
      }
    } else if !(s[0] == '"' && Terminates(s[1..])) {
      BodyIsPrefix(s[1..]);
      assert s[..1 + |Body(s[1..])|] == [s[0]] + s[1..][..|Body(s[1..])|];
    }
  }

  lemma QuotedIsPrefix(s: string)
    requires s != "" && s[0] == '"'
    ensures SegmentText(First(s)) == s[..|SegmentText(First(s))|]
  {
    var body := Body(s[1..]);
    var n := 1 + |body|;
    BodyIsPrefix(s[1..]);
    assert s[..n] == ['"'] + body by {
      assert s[..n] == [s[0]] + s[1..][..|body|];
    }
    if n < |s| {
      assert s[n] == s[1..][|body|];
      assert s[..n + 1] == s[..n] + ['"'];
    }
  }

  lemma FirstIsPrefix(s: string)
    requires s != ""
    ensures s == SegmentText(First(s)) + AfterFirst(s)
  {
    if s[0] == '"' { QuotedIsPrefix(s); }
  }

  /** Nothing of the source is missing from its segments, and nothing added. */
  lemma {:induction false} SegmentsCover(s: string)
    ensures SourceText(Segments(s)) == s
    decreases |s|
  {
    if s != "" {
      SegmentsCover(AfterFirst(s));
      FirstIsPrefix(s);
    }
  }

  // ---- What a string of the source was meant to hold ----

  /** A character, a legal escape, or a character that the reader must be given by its code. */
  datatype Unit = Letter(c: char) | Escaping(c: char) | Coded(c: char)

  /**
   * A body as the pass understands it: legal escapes are escapes; a backslash before anything else
   * goes, as does a carriage return; a raw control or quotation mark stands for itself. What goes counts
   * for nothing, even between an escape by `u` and its digits.
   */
  function Units(body: string): seq<Unit>
    decreases |body|
  {
    if body == "" then []
    else if body[0] == '\\' then
      if |body| == 1 then []
      else if IsValidEscape(body[1]) then [Escaping(body[1])] + Units(body[2..])
      else [if body[1] == '\n' then Coded('\n') else Letter(body[1])] + Units(body[2..])
    else CharacterUnits(body[0]) + Units(body[1..])
  }

  function CharacterUnits(c: char): seq<Unit> {
    if c == '\r' then [] else if c == '"' || IsControl(c) then [Coded(c)] else [Letter(c)]
  }

  predicate IsHex(u: Unit) {
    u.Letter? && HexValue(u.c) >= 0
  }

  predicate IsUnicode(units: seq<Unit>) {
    |units| >= 5 && units[0] == Escaping('u') && forall i | 1 <= i < 5 :: IsHex(units[i])
  }

  /** The code of an escape by `u`. */
  function UnicodeCode(units: seq<Unit>): int
    requires IsUnicode(units)
  {
    4096 * HexValue(units[1].c) + 256 * HexValue(units[2].c) + 16 * HexValue(units[3].c) + HexValue(units[4].c)
  }

  /** The codes that units stand for; an escape by `u` takes the four hex digits after it. */
  function Read(units: seq<Unit>): seq<int> {
    if units == [] then []
    else if IsUnicode(units) then [UnicodeCode(units)] + Read(units[5..])
    else if units[0].Escaping? then [SimpleEscape(units[0].c)] + Read(units[1..])
    else [units[0].c as int] + Read(units[1..])
  }

  /** What a string with this body was meant to hold. */
  function Meaning(body: string): seq<int> {
    Read(Units(body))
  }

  // ---- What the pass writes for it ----

  function UnitPieces(u: Unit): (pieces: seq<Piece>)
    ensures |pieces| > 0
  {
    match u
    case Letter(c) => [Raw(c)]
    case Escaping(c) => [Escape(c)]
    case Coded(c) =>
      if c == '\n' then [Escape('n')]
      else if c == '\t' then [Escape('t')]
      else if IsControl(c) then
        [Escape('u'), Raw('0'), Raw('0'), Raw(HexDigit(c as int / 16)), Raw(HexDigit(c as int % 16))]
      else [Escape('"')]
  }

  function Pieces(units: seq<Unit>): seq<Piece> {
    if units == [] then [] else UnitPieces(units[0]) + Pieces(units[1..])
  }

  predicate IsUnit(u: Unit) {
    u.Coded? ==> u.c == '"' || IsControl(u.c)
  }

  lemma {:induction false} UnitsAreUnits(body: string)
    ensures forall u | u in Units(body) :: IsUnit(u)
    decreases |body|
  {
    if body != "" {
      if body[0] == '\\' {
        if |body| > 1 { UnitsAreUnits(body[2..]); }
      } else {
        UnitsAreUnits(body[1..]);
      }
    }
  }

  lemma OneUnit(u: Unit, rest: seq<Unit>)
    ensures Pieces([u] + rest) == UnitPieces(u) + Pieces(rest)
  {
    assert ([u] + rest)[1..] == rest;
  }

  lemma {:induction false} PiecesConcat(a: seq<Unit>, b: seq<Unit>)
    ensures Pieces(a + b) == Pieces(a) + Pieces(b)
  {
    if a == [] {
      assert a + b == b;
    } else {
      assert (a + b)[1..] == a[1..] + b;
      PiecesConcat(a[1..], b);
      Associate(UnitPieces(a[0]), Pieces(a[1..]), Pieces(b));
    }
  }

  /** A turn on a backslash takes the next character with it and writes its unit. */
  lemma EscapeTurn(s: string)
    requires |s| > 1 && s[0] == '\\'
    ensures var t := Advance(s, true);
            t.inString && t.rest == s[2..] && Body(s) == s[..2] + Body(t.rest)
            && Pieces(Units(Body(s))) == t.out + Pieces(Units(Body(t.rest)))
  {
    var b := Body(s[2..]);
    assert (s[..2] + b)[2..] == b && (s[..2] + b)[1] == s[1];
    OneUnit(if IsValidEscape(s[1]) then Escaping(s[1]) else if s[1] == '\n' then Coded('\n') else Letter(s[1]),
                Units(b));
  }

  /** What a turn writes for a character that neither ends the string nor takes another along. */
  lemma CharacterOut(c: char, rest: string)
    requires c != '\\' && !(c == '"' && Terminates(rest))
    ensures Inside(c, rest).out == Pieces(CharacterUnits(c))
    ensures Inside(c, rest).rest == rest && Inside(c, rest).inString
  {
    if c != '\r' {
      var u := if c == '"' || IsControl(c) then Coded(c) else Letter(c);
      OneUnit(u, []);
      assert [u] + [] == [u] && UnitPieces(u) + Pieces([]) == UnitPieces(u);
    }
  }

  /** Any other turn that does not end the string takes one character. */
  lemma CharacterTurn(s: string)
    requires s != "" && s[0] != '\\' && !(s[0] == '"' && Terminates(s[1..]))
    ensures var t := Advance(s, true);
            t.inString && t.rest == s[1..] && Body(s) == s[..1] + Body(t.rest)
            && Pieces(Units(Body(s))) == t.out + Pieces(Units(Body(t.rest)))
  {
    var b := Body(s[1..]);
    assert Body(s) == [s[0]] + b && ([s[0]] + b)[1..] == b;
    CharacterOut(s[0], s[1..]);
    PiecesConcat(CharacterUnits(s[0]), Units(b));
  }

  lemma Associate(a: seq<Piece>, b: seq<Piece>, c: seq<Piece>)
    ensures a + (b + c) == (a + b) + c
  {
  }

  /** What follows a string body in the output. */
  function AfterBody(s: string): seq<Piece> {
    if |Body(s)| == |s| then [] else [Close] + Scan(s[|Body(s)| + 1..], false).pieces
  }

  lemma SameAfterBody(s: string, n: nat)
    requires n <= |s| && |Body(s)| == n + |Body(s[n..])|
    ensures AfterBody(s) == AfterBody(s[n..])
  {
    if |Body(s)| < |s| {
      assert s[|Body(s)| + 1..] == s[n..][|Body(s[n..])| + 1..];
    }
  }

  /** The string goes on after its first character. */
  predicate GoesOn(s: string) {
    s != "" && s != "\\" && !(s[0] == '"' && Terminates(s[1..]))
  }

  lemma ScanTurn(s: string, inString: bool)
    requires s != ""
    ensures var t := Advance(s, inString); Scan(s, inString).pieces == t.out + Scan(t.rest, t.inString).pieces
  {
  }

  /** The pass writes the units of the string body that `s` starts with, and closes the string where it ends. */
  predicate IsWritten(s: string) {
    Scan(s, true).pieces == Pieces(Units(Body(s))) + AfterBody(s)
  }

  lemma Chained(all: seq<Piece>, out: seq<Piece>, rest: seq<Piece>, units: seq<Piece>, more: seq<Piece>,
                end: seq<Piece>)
    requires all == out + rest && units == out + more
    ensures rest == more + end ==> all == units + end
  {
  }

  lemma StringTurn(s: string)
    requires GoesOn(s)
    ensures IsWritten(Advance(s, true).rest) ==> IsWritten(s)
  {
    var t := Advance(s, true);
    ScanTurn(s, true);
    if s[0] == '\\' { EscapeTurn(s); } else { CharacterTurn(s); }
    assert |Body(s)| == (|s| - |t.rest|) + |Body(t.rest)| && t.rest == s[|s| - |t.rest|..];
    SameAfterBody(s, |s| - |t.rest|);
    Chained(Scan(s, true).pieces, t.out, Scan(t.rest, true).pieces,
            Pieces(Units(Body(s))), Pieces(Units(Body(t.rest))), AfterBody(t.rest));
  }

  lemma StringEnds(s: string)
    requires !GoesOn(s)
    ensures IsWritten(s)
  {
    assert Pieces([]) == [];
  }

  lemma {:induction false} BodyIsWritten(s: string)
    ensures IsWritten(s)
    decreases |s|
  {
    if GoesOn(s) {
      BodyIsWritten(Advance(s, true).rest);
      StringTurn(s);
    } else {
      StringEnds(s);
    }
  }

  // ---- A strict reader gets the meaning back ----

  predicate IsRawHex(p: Piece) {
    p.Raw? && HexValue(p.c) >= 0
  }

  predicate StartsWithHex(units: seq<Unit>, n: nat) {
    n <= |units| && forall i | 0 <= i < n :: IsHex(units[i])
  }

  predicate ShowsHex(pieces: seq<Piece>, n: nat) {
    n <= |pieces| && forall i | 0 <= i < n :: IsRawHex(pieces[i])
  }

  lemma ShiftHex(u: Unit, units: seq<Unit>, p: Piece, pieces: seq<Piece>, n: nat)
    ensures StartsWithHex([u] + units, n + 1) <==> IsHex(u) && StartsWithHex(units, n)
    ensures ShowsHex([p] + pieces, n + 1) <==> IsRawHex(p) && ShowsHex(pieces, n)
  {
    var us, ps := [u] + units, [p] + pieces;
    assert forall i | 0 <= i < |units| :: units[i] == us[i + 1];
    assert forall i | 0 < i < |us| :: us[i] == units[i - 1];
    assert forall i | 0 <= i < |pieces| :: pieces[i] == ps[i + 1];
    assert forall i | 0 < i < |ps| :: ps[i] == pieces[i - 1];
    assert us[0] == u && ps[0] == p;
  }

  lemma LetterFirst(units: seq<Unit>)
    requires units != [] && units[0].Letter?
    ensures Pieces(units) == [Raw(units[0].c)] + Pieces(units[1..])
  {
  }

  /** Hex digits that the pieces of units start with were there in the units. */
  lemma {:induction false} ShownDigitsAreHex(units: seq<Unit>, n: nat)
    requires ShowsHex(Pieces(units), n) && forall u | u in units :: IsUnit(u)
    ensures StartsWithHex(units, n)
  {
    if n > 0 {
      var u, after := units[0], units[1..];
      assert Pieces(units)[0] == UnitPieces(u)[0];
      LetterFirst(units);
      assert units == [u] + after;
      ShiftHex(u, after, Raw(u.c), Pieces(after), n - 1);
      ShownDigitsAreHex(after, n - 1);
    }
  }

  lemma UnicodeDecodesThen(a: char, b: char, c: char, d: char, rest: seq<Piece>)
    requires HexValue(a) >= 0 && HexValue(b) >= 0 && HexValue(c) >= 0 && HexValue(d) >= 0
    ensures Decode([Escape('u'), Raw(a), Raw(b), Raw(c), Raw(d)] + rest)
         == [4096 * HexValue(a) + 256 * HexValue(b) + 16 * HexValue(c) + HexValue(d)] + Decode(rest)
  {
    var body := [Escape('u'), Raw(a), Raw(b), Raw(c), Raw(d)] + rest;
    assert body[0] == Escape('u') && body[1] == Raw(a) && body[2] == Raw(b) && body[3] == Raw(c) && body[4] == Raw(d);
    assert body[5..] == rest;
  }

  lemma ControlDecodesThen(c: char, rest: seq<Piece>)
    requires IsControl(c)
    ensures Decode([Escape('u'), Raw('0'), Raw('0'), Raw(HexDigit(c as int / 16)), Raw(HexDigit(c as int % 16))] + rest)
         == [c as int] + Decode(rest)
  {
    var n := c as int;
    var high, low := HexDigit(n / 16), HexDigit(n % 16);
    assert HexValue('0') == 0 && HexValue(high) == n / 16 && HexValue(low) == n % 16 by {
      HexDigitValue(n / 16);
      HexDigitValue(n % 16);
    }
    UnicodeDecodesThen('0', '0', high, low, rest);
  }

  lemma CodedDecodesThen(c: char, rest: seq<Piece>)
    requires IsUnit(Coded(c))
    ensures Decode(UnitPieces(Coded(c)) + rest) == [c as int] + Decode(rest)
  {
    if c == '"' || c == '\n' || c == '\t' {
      assert (UnitPieces(Coded(c)) + rest)[1..] == rest;
    } else {
      ControlDecodesThen(c, rest);
    }
  }

  lemma {:induction false} HexAfterEscape(units: seq<Unit>)
    requires units != [] && units[0] == Escaping('u')
    ensures IsUnicode(units) <==> StartsWithHex(units[1..], 4)
  {
    assert forall i | 0 <= i < |units| - 1 :: units[1..][i] == units[i + 1];
    assert forall i | 1 <= i < |units| :: units[i] == units[1..][i - 1];
  }

  lemma TwoDigits(units: seq<Unit>)
    requires |units| >= 2 && units[0].Letter? && units[1].Letter?
    ensures Pieces(units) == [Raw(units[0].c), Raw(units[1].c)] + Pieces(units[2..])
  {
    var after, rest := units[1..], units[2..];
    assert after[1..] == rest && after[0] == units[1];
    LetterFirst(units);
    LetterFirst(after);
    assert [Raw(units[0].c)] + ([Raw(units[1].c)] + Pieces(rest)) == [Raw(units[0].c), Raw(units[1].c)] + Pieces(rest);
  }

  lemma FourDigits(units: seq<Unit>)
    requires StartsWithHex(units, 4)
    ensures Pieces(units)
         == [Raw(units[0].c), Raw(units[1].c), Raw(units[2].c), Raw(units[3].c)] + Pieces(units[4..])
  {
    var after := units[2..];
    assert IsHex(units[0]) && IsHex(units[1]) && IsHex(units[2]) && IsHex(units[3]);
    TwoDigits(units);
    TwoDigits(after);
    assert after[2..] == units[4..];
  }

  lemma EscapeFirst(units: seq<Unit>)
    requires units != [] && units[0] == Escaping('u')
    ensures Pieces(units) == [Escape('u')] + Pieces(units[1..])
  {
  }

  lemma Spread(a: Piece, b: Piece, c: Piece, d: Piece, rest: seq<Piece>)
    ensures [Escape('u')] + ([a, b, c, d] + rest) == [Escape('u'), a, b, c, d] + rest
  {
  }

  lemma UnicodePieces(units: seq<Unit>)
    requires IsUnicode(units)
    ensures Pieces(units)
         == [Escape('u'), Raw(units[1].c), Raw(units[2].c), Raw(units[3].c), Raw(units[4].c)] + Pieces(units[5..])
  {
    var after := units[1..];
    HexAfterEscape(units);
    FourDigits(after);
    assert after[4..] == units[5..];
    EscapeFirst(units);
    Spread(Raw(after[0].c), Raw(after[1].c), Raw(after[2].c), Raw(after[3].c), Pieces(units[5..]));
  }

  lemma {:induction false} UnicodeDecodes(units: seq<Unit>)
    requires IsUnicode(units)
    ensures Decode(Pieces(units)) == [UnicodeCode(units)] + Decode(Pieces(units[5..]))
  {
    UnicodePieces(units);
    UnicodeDecodesThen(units[1].c, units[2].c, units[3].c, units[4].c, Pieces(units[5..]));
  }

  /** An escape by `u` that lacks its four digits reads, and decodes, as itself. */
  lemma {:induction false} LoneEscapeDecodes(units: seq<Unit>)
    requires units != [] && units[0] == Escaping('u') && !IsUnicode(units) && forall u | u in units :: IsUnit(u)
    ensures Decode(Pieces(units)) == [SimpleEscape('u')] + Decode(Pieces(units[1..]))
  {
    var p, tail := Pieces(units), Pieces(units[1..]);
    HexAfterEscape(units);
    if ShowsHex(tail, 4) { ShownDigitsAreHex(units[1..], 4); }
    assert p == [Escape('u')] + tail && p[1..] == tail;
    assert forall i | 0 <= i < |tail| :: tail[i] == p[i + 1];
  }

  lemma PlainDecodes(u: Unit, rest: seq<Piece>)
    requires !u.Coded? && u != Escaping('u')
    ensures Decode(UnitPieces(u) + rest) == [if u.Letter? then u.c as int else SimpleEscape(u.c)] + Decode(rest)
  {
    assert (UnitPieces(u) + rest)[1..] == rest;
  }

  /** Every body is read back, whatever mixture of repairs it took to write it. */
  lemma {:induction false} UnitsDecode(units: seq<Unit>)
    requires forall u | u in units :: IsUnit(u)
    ensures Decode(Pieces(units)) == Read(units)
    decreases |units|
  {
    if units != [] {
      var u, rest := units[0], Pieces(units[1..]);
      UnitsDecode(units[1..]);
      if u == Escaping('u') {
        if IsUnicode(units) {
          UnicodeDecodes(units);
          UnitsDecode(units[5..]);
        } else {
          LoneEscapeDecodes(units);
        }
      } else if u.Coded? {
        CodedDecodesThen(u.c, rest);
      } else {
        PlainDecodes(u, rest);
      }
    }
  }

  // ---- The whole output ----

  /** What the lexer is to see of a segment. */
  function SegmentPieces(g: Segment): seq<Piece> {
    match g
    case Kept(c) => [Outside(c)]
    case DroppedComma => []
    case DroppedComment(_) => []
    case Quoted(body, closed) => [Open] + (Pieces(Units(body)) + if closed then [Close] else [])
  }

  function Written(segments: seq<Segment>): seq<Piece> {
    if segments == [] then [] else SegmentPieces(segments[0]) + Written(segments[1..])
  }

  lemma AfterQuoted(s: string)
    requires s != "" && s[0] == '"'
    ensures var after := Scan(AfterFirst(s), false).pieces;
            && AfterBody(s[1..]) == (if First(s).closed then [Close] + after else [])
            && (!First(s).closed ==> after == [])
  {
    assert AfterFirst(s) == if First(s).closed then s[1..][|Body(s[1..])| + 1..] else "";
  }

  lemma OpeningTurn(s: string)
    requires s != "" && s[0] == '"'
    ensures Scan(s, false).pieces == [Open] + Scan(s[1..], true).pieces
  {
  }

  lemma Regroup(body: seq<Piece>, closed: bool, after: seq<Piece>)
    requires !closed ==> after == []
    ensures [Open] + (body + if closed then [Close] + after else [])
         == [Open] + (body + if closed then [Close] else []) + after
  {
  }

  lemma QuotedIsWritten(s: string)
    requires s != "" && s[0] == '"'
    ensures Scan(s, false).pieces == SegmentPieces(First(s)) + Scan(AfterFirst(s), false).pieces
  {
    var units, closed := Pieces(Units(Body(s[1..]))), First(s).closed;
    AfterQuoted(s);
    OpeningTurn(s);
    BodyIsWritten(s[1..]);
    Regroup(units, closed, Scan(AfterFirst(s), false).pieces);
    assert SegmentPieces(First(s)) == [Open] + (units + if closed then [Close] else []);
  }

  lemma CommentIsWritten(s: string)
    requires IsComment(s)
    ensures Advance(s, false) == Turn([], {Comment}, AfterFirst(s), false)
  {
    CommentTurn(s);
    AdvanceTakesPrefix(s, false);
  }

  lemma CharacterIsWritten(s: string)
    requires s != "" && s[0] != '"' && !IsComment(s)
    ensures Advance(s, false).out == SegmentPieces(First(s)) && !Advance(s, false).inString
    ensures Advance(s, false).rest == AfterFirst(s) == s[1..]
  {
  }

  lemma PlainIsWritten(s: string)
    requires s != "" && s[0] != '"'
    ensures Scan(s, false).pieces == SegmentPieces(First(s)) + Scan(AfterFirst(s), false).pieces
  {
    if IsComment(s) { CommentIsWritten(s); } else { CharacterIsWritten(s); }
    ScanTurn(s, false);
  }

  lemma {:induction false} SegmentsAreWritten(s: string)
    ensures Scan(s, false).pieces == Written(Segments(s))
    decreases |s|
  {
    if s != "" {
      if s[0] == '"' { QuotedIsWritten(s); } else { PlainIsWritten(s); }
      SegmentsAreWritten(AfterFirst(s));
      assert Segments(s)[1..] == Segments(AfterFirst(s));
    }
  }

  /** A character outside strings, or a string with the codes a reader takes from it. */
  datatype Token = Mark(c: char) | Held(codes: seq<int>, closed: bool)

  function BodyLength(pieces: seq<Piece>): (n: nat)
    ensures n <= |pieces|
  {
    if pieces == [] || pieces[0].Close? then 0 else 1 + BodyLength(pieces[1..])
  }

  /** A strict reader's view of lexed text. */
  function Tokens(pieces: seq<Piece>): seq<Token>
    decreases |pieces|
  {
    if pieces == [] then []
    else if pieces[0].Open? then
      var body := pieces[1..];
      var n := BodyLength(body);
      [Held(Decode(body[..n]), n < |body|)] + Tokens(if n < |body| then body[n + 1..] else [])
    else if pieces[0].Outside? then [Mark(pieces[0].c)] + Tokens(pieces[1..])
    else Tokens(pieces[1..])
  }

  /** What the source was meant to say: its kept characters and its strings, in order. */
  function Intended(segments: seq<Segment>): seq<Token> {
    if segments == [] then [] else SegmentTokens(segments[0]) + Intended(segments[1..])
  }

  function SegmentTokens(g: Segment): seq<Token> {
    match g
    case Kept(c) => [Mark(c)]
    case DroppedComma => []
    case DroppedComment(_) => []
    case Quoted(body, closed) => [Held(Meaning(body), closed)]
  }

  lemma {:induction false} PiecesStayInside(units: seq<Unit>)
    ensures forall p | p in Pieces(units) :: !p.Close?
  {
    if units != [] { PiecesStayInside(units[1..]); }
  }

  lemma {:induction false} BodyEnds(body: seq<Piece>, after: seq<Piece>)
    requires (forall p | p in body :: !p.Close?) && (after == [] || after[0].Close?)
    ensures BodyLength(body + after) == |body|
  {
    if body == [] {
      assert body + after == after;
    } else {
      assert (body + after)[1..] == body[1..] + after;
      BodyEnds(body[1..], after);
    }
  }

  lemma StringToken(body: seq<Piece>, closed: bool, after: seq<Piece>)
    requires (forall p | p in body :: !p.Close?) && (!closed ==> after == [])
    ensures Tokens([Open] + (body + if closed then [Close] else []) + after)
         == [Held(Decode(body), closed)] + Tokens(after)
  {
    var end := if closed then [Close] + after else [];
    BodyEnds(body, end);
    var all := [Open] + (body + if closed then [Close] else []) + after;
    assert all[1..] == body + end && (body + end)[..|body|] == body;
    if closed {
      assert (body + end)[|body| + 1..] == after;
    }
  }

  lemma SegmentIsRead(g: Segment, after: seq<Piece>)
    requires g.Quoted? && !g.closed ==> after == []
    ensures Tokens(SegmentPieces(g) + after) == SegmentTokens(g) + Tokens(after)
  {
    match g
    case Kept(c) =>
      assert ([Outside(c)] + after)[1..] == after;
    case Quoted(body, closed) =>
      UnitsAreUnits(body);
      UnitsDecode(Units(body));
      PiecesStayInside(Units(body));
      StringToken(Pieces(Units(body)), closed, after);
    case _ =>
      assert [] + after == after && [] + Tokens(after) == Tokens(after);
  }

  lemma OneMoreSegment(g: Segment, rest: seq<Segment>)
    ensures Written([g] + rest) == SegmentPieces(g) + Written(rest)
    ensures Intended([g] + rest) == SegmentTokens(g) + Intended(rest)
  {
    assert ([g] + rest)[1..] == rest;
  }

  /** Read back, what is written for `segments` says what they were meant to say. */
  predicate IsRead(segments: seq<Segment>) {
    Tokens(Written(segments)) == Intended(segments)
  }

  lemma SegmentReadThen(g: Segment, rest: seq<Segment>)
    requires g.Quoted? && !g.closed ==> Written(rest) == []
    ensures IsRead(rest) ==> IsRead([g] + rest)
  {
    OneMoreSegment(g, rest);
    SegmentIsRead(g, Written(rest));
  }

  lemma {:induction false} TokensAreIntended(s: string)
    ensures IsRead(Segments(s))
    decreases |s|
  {
    if s != "" {
      var g, rest := First(s), Segments(AfterFirst(s));
      TokensAreIntended(AfterFirst(s));
      assert g.Quoted? && !g.closed ==> AfterFirst(s) == "";
      SegmentReadThen(g, rest);
    }
  }

  /**
   * The repair keeps what the source says. A strict reader of the output meets, in order, the source's
   * characters outside strings, only the trailing commas and the comments gone, and its strings, each
   * with the codes its body was meant to hold.
   */
  lemma RepairKeepsMeaning(source: string)
    ensures Tokens(Lex(Repaired(source).0, false)) == Intended(Segments(Prepare(source).0))
    ensures SourceText(Segments(Prepare(source).0)) == Prepare(source).0
  {
    var text := Prepare(source).0;
    LexerAgrees(text, false);
    SegmentsAreWritten(text);
    TokensAreIntended(text);
    SegmentsCover(text);
  }
}
