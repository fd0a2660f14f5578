/** What the repair pass reports: each kind of repair exactly when the source calls for it somewhere. */
module JsonReport {
  import opened Wrappers
  import opened JsonTolerant
  import opened JsonSource

  // ---- Inside a string ----

  /** The characters of a string body that no backslash takes along. */
  function Bare(body: string): string
    decreases |body|
  {
    if body == "" then ""
    else if body[0] != '\\' then [body[0]] + Bare(body[1..])
    else if |body| == 1 then ""
    else Bare(body[2..])
  }

  /** The characters that one does. */
  function Taken(body: string): string
    decreases |body|
  {
    if body == "" then ""
    else if body[0] != '\\' then Taken(body[1..])
    else if |body| == 1 then ""
    else [body[1]] + Taken(body[2..])
  }

  /** The body ends in a backslash that has nothing to take. */
  predicate Dangles(body: string)
    decreases |body|
  {
    body != "" && if body[0] != '\\' then Dangles(body[1..]) else |body| == 1 || Dangles(body[2..])
  }

  predicate IsLegalEscape(c: char) {
    c == '"' || c == '\\' || c == '/' || c == 'b' || c == 'f' || c == 'n' || c == 'r' || c == 't' || c == 'u'
  }

  /** A control character that is no line end. */
  predicate IsOtherControl(c: char) {
    c as int < 0x20 && c != '\n' && c != '\r'
  }

  /** A string with this body calls for the repair. */
  ghost predicate BodyCallsFor(r: Repair, body: string) {
    match r
    case RawNewline => '\n' in Bare(body) || '\r' in Bare(body)
    case RawControl => exists c | c in Bare(body) :: IsOtherControl(c)
    case InnerQuote => '"' in Bare(body)
    case InvalidEscape => exists c | c in Taken(body) :: !IsLegalEscape(c)
    case DanglingEscape => Dangles(body)
    case _ => false
  }

  lemma CallsAfterEscape(r: Repair, c: char, body: string)
    ensures BodyCallsFor(r, ['\\', c] + body) <==> (r == InvalidEscape && !IsLegalEscape(c)) || BodyCallsFor(r, body)
  {
    var longer := ['\\', c] + body;
    assert longer[2..] == body && longer[1] == c;
    assert Taken(longer) == [c] + Taken(body) && Bare(longer) == Bare(body);
    assert forall x :: x in Taken(longer) <==> x == c || x in Taken(body);
  }

  lemma CallsAfterCharacter(r: Repair, c: char, body: string)
    requires c != '\\'
    ensures BodyCallsFor(r, [c] + body) <==>
              || BodyCallsFor(r, body) || (r == InnerQuote && c == '"') || (r == RawNewline && (c == '\n' || c == '\r'))
              || (r == RawControl && IsOtherControl(c))
  {
    var longer := [c] + body;
    assert longer[1..] == body;
    assert Taken(longer) == Taken(body) && Dangles(longer) == Dangles(body);
    var bare := [c] + Bare(body);
    assert Bare(longer) == bare;
    assert forall x :: x in bare <==> x == c || x in Bare(body);
    if r == RawControl && IsOtherControl(c) { assert c in Bare(longer); }
    if r == RawControl && BodyCallsFor(r, body) {
      var x :| x in Bare(body) && IsOtherControl(x);
      assert x in Bare(longer);
    }
  }

  lemma TurnOnEscape(c: char, rest: string)
    ensures Inside('\\', [c] + rest).repairs == if IsLegalEscape(c) then {} else {InvalidEscape}
  {
  }

  lemma EscapeReports(r: Repair, s: string)
    requires |s| > 1 && s[0] == '\\'
    ensures BodyCallsFor(r, Body(s)) <==> r in Advance(s, true).repairs || BodyCallsFor(r, Body(s[2..]))
  {
    EscapeTurn(s);
    TurnOnEscape(s[1], s[2..]);
    assert s[1..][0] == s[1] && s[1..][1..] == s[2..];
    assert s[..2] == ['\\', s[1]];
    CallsAfterEscape(r, s[1], Body(s[2..]));
  }

  lemma CharacterReports(r: Repair, s: string)
    requires GoesOn(s) && s[0] != '\\'
    ensures BodyCallsFor(r, Body(s)) <==> r in Advance(s, true).repairs || BodyCallsFor(r, Body(s[1..]))
  {
    var b := Body(s[1..]);
    assert Body(s) == [s[0]] + b;
    CallsAfterCharacter(r, s[0], b);
  }

  lemma TurnReports(r: Repair, s: string)
    requires GoesOn(s)
    ensures var t := Advance(s, true);
            t.inString && (BodyCallsFor(r, Body(s)) <==> r in t.repairs || BodyCallsFor(r, Body(t.rest)))
  {
    if s[0] == '\\' {
      EscapeTurn(s);
      EscapeReports(r, s);
    } else {
      CharacterTurn(s);
      CharacterReports(r, s);
    }
  }

  /** From inside a string, the repair is reported for its body or for what comes after. */
  ghost predicate IsReported(r: Repair, s: string) {
    r in Scan(s, true).repairs <==>
      BodyCallsFor(r, Body(s)) || (|Body(s)| < |s| && r in Scan(s[|Body(s)| + 1..], false).repairs)
  }

  lemma ScanReports(r: Repair, s: string, inString: bool)
    requires s != ""
    ensures var t := Advance(s, inString);
            r in Scan(s, inString).repairs <==> r in t.repairs || r in Scan(t.rest, t.inString).repairs
  {
  }

  lemma SameAfter(s: string, rest: string)
    requires |rest| <= |s| && rest == s[|s| - |rest|..] && |Body(s)| == |s| - |rest| + |Body(rest)|
    ensures |Body(s)| < |s| <==> |Body(rest)| < |rest|
    ensures |Body(s)| < |s| ==> s[|Body(s)| + 1..] == rest[|Body(rest)| + 1..]
  {
  }

  lemma TurnTakes(s: string)
    requires GoesOn(s)
    ensures var rest := Advance(s, true).rest;
            |rest| < |s| && rest == s[|s| - |rest|..] && |Body(s)| == |s| - |rest| + |Body(rest)|
  {
    if s[0] == '\\' { EscapeTurn(s); } else { CharacterTurn(s); }
  }

  lemma StringReportsThen(r: Repair, s: string)
    requires GoesOn(s)
    ensures IsReported(r, Advance(s, true).rest) ==> IsReported(r, s)
  {
    var t := Advance(s, true);
    ScanReports(r, s, true);
    TurnReports(r, s);
    TurnTakes(s);
    SameAfter(s, t.rest);
  }

  lemma StringEndReports(r: Repair, s: string)
    requires !GoesOn(s)
    ensures IsReported(r, s)
  {
    if s == "\\" {
      assert Body(s) == s && Bare(s) == Taken(s) == "";
    } else if s != "" {
      assert Body(s) == "" && Bare("") == Taken("") == "";
      ScanReports(r, s, true);
    }
  }

  lemma {:induction false} StringReports(r: Repair, s: string)
    ensures IsReported(r, s)
    decreases |s|
  {
    if GoesOn(s) {
      StringReports(r, Advance(s, true).rest);
      StringReportsThen(r, s);
    } else {
      StringEndReports(r, s);
    }
  }

  // ---- A whole text ----

  ghost predicate SegmentCallsFor(r: Repair, g: Segment) {
    match g
    case Kept(_) => false
    case DroppedComma => r == TrailingComma
    case DroppedComment(_) => r == Comment
    case Quoted(body, _) => BodyCallsFor(r, body)
  }

  ghost predicate CallsFor(r: Repair, segments: seq<Segment>) {
    exists g | g in segments :: SegmentCallsFor(r, g)
  }

  lemma OneMoreCalls(r: Repair, g: Segment, rest: seq<Segment>)
    ensures CallsFor(r, [g] + rest) <==> SegmentCallsFor(r, g) || CallsFor(r, rest)
  {
    assert forall x :: x in [g] + rest <==> x == g || x in rest;
  }

  lemma RestOfQuoted(s: string)
    requires s != "" && s[0] == '"'
    ensures var tail := s[1..];
            AfterFirst(s) == if |Body(tail)| < |tail| then tail[|Body(tail)| + 1..] else ""
  {
  }

  lemma OpeningReports(r: Repair, s: string)
    requires s != "" && s[0] == '"'
    ensures r in Scan(s, false).repairs <==> r in Scan(s[1..], true).repairs
  {
    ScanReports(r, s, false);
  }

  lemma QuotedReports(r: Repair, s: string)
    requires s != "" && s[0] == '"'
    ensures r in Scan(s, false).repairs <==> SegmentCallsFor(r, First(s)) || r in Scan(AfterFirst(s), false).repairs
  {
    OpeningReports(r, s);
    StringReports(r, s[1..]);
    RestOfQuoted(s);
    assert First(s) == Quoted(Body(s[1..]), |Body(s[1..])| < |s| - 1);
  }

  lemma PlainReports(r: Repair, s: string)
    requires s != "" && s[0] != '"'
    ensures r in Scan(s, false).repairs <==> SegmentCallsFor(r, First(s)) || r in Scan(AfterFirst(s), false).repairs
  {
    ScanReports(r, s, false);
    if IsComment(s) { CommentIsWritten(s); } else { CharacterIsWritten(s); }
  }

  lemma {:induction false} TextReports(r: Repair, s: string)
    ensures r in Scan(s, false).repairs <==> CallsFor(r, Segments(s))
    decreases |s|
  {
    if s != "" {
      if s[0] == '"' { QuotedReports(r, s); } else { PlainReports(r, s); }
      TextReports(r, AfterFirst(s));
      OneMoreCalls(r, First(s), Segments(AfterFirst(s)));
    }
  }

  /**
   * Of the repairs within the payload each is reported exactly when its cause is somewhere in it: a trailing
   * comma or a comment between the strings, or in one of them a bare newline or carriage return, another bare
   * control character, a bare quotation mark that does not end it, a backslash before a character that is no
   * escape, or a backslash at the very end.
   */
  lemma ReportsExactly(source: string, r: Repair)
    requires r != NestedFence && r != TrimmedWrapper
    ensures r in Repaired(source).1 <==> CallsFor(r, Segments(Prepare(source).0))
  {
    TextReports(r, Prepare(source).0);
  }
}
