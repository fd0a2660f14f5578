/**
 * What surrounds a payload: white space, code fences on lines of their own, and prose. `Prepare` is
 * characterized both ways: whatever the source, what it drops is of these kinds; and a payload so
 * surrounded is what it finds.
 */
module JsonWrapper {
  import opened Wrappers
  import opened JsonTolerant
  import opened TextTools

  /** A fence line: before the payload it may carry a name; blanks may stand beside its backticks. */
  datatype Fence = NoFence | Fence(name: string, blanks: string, lineEnd: string)

  predicate Consists(s: string, of: char -> bool) {
    forall k | 0 <= k < |s| :: of(s[k])
  }

  predicate IsFence(f: Fence) {
    f.Fence? ==>
      Consists(f.name, IsFenceName) && Consists(f.blanks, IsBlank) && (f.lineEnd == "\n" || f.lineEnd == "\r\n")
  }

  /** The name and the blanks come after the backticks of an opening fence. */
  function Opening(f: Fence): string {
    if f.NoFence? then "" else "```" + (f.name + (f.blanks + f.lineEnd))
  }

  /** A closing fence has no name; the blanks come before its backticks. */
  function Closing(f: Fence): string {
    if f.NoFence? then "" else f.lineEnd + (f.blanks + "```")
  }

  /** It begins with an opening brace and ends with a closing one. */
  predicate Braced(s: string) {
    |s| >= 2 && s[0] == '{' && s[|s| - 1] == '}'
  }

  /** No opening brace of `s` comes before a closing one. */
  predicate NothingBraced(s: string) {
    forall i, j | 0 <= i < j < |s| :: !(s[i] == '{' && s[j] == '}')
  }

  predicate IsProse(s: string) {
    forall k | 0 <= k < |s| :: s[k] != '{' && s[k] != '}' && s[k] != '`'
  }

  function FenceRepairs(open: Fence, close: Fence): set<Repair> {
    if open.Fence? || close.Fence? then {NestedFence} else {}
  }

  function ProseRepairs(before: string, after: string): set<Repair> {
    if before != "" || after != "" then {TrimmedWrapper} else {}
  }

  // ---- Dropping characters of a kind ----

  lemma {:induction false} DropWhileStops(s: string, f: char -> bool, rest: string)
    requires Consists(s, f) && (rest != "" ==> !f(rest[0]))
    ensures DropWhile(s + rest, f) == rest
  {
    if s == "" {
      assert s + rest == rest;
    } else {
      DropWhileStops(s[1..], f, rest);
      assert (s + rest)[1..] == s[1..] + rest;
    }
  }

  lemma {:induction false} DropWhileEndStops(s: string, f: char -> bool, rest: string)
    requires Consists(rest, f) && (s != "" ==> !f(s[|s| - 1]))
    ensures DropWhileEnd(s + rest, f) == s
  {
    if rest == "" {
      assert s + rest == s;
    } else {
      var n := |rest| - 1;
      DropWhileEndStops(s, f, rest[..n]);
      assert (s + rest)[..|s + rest| - 1] == s + rest[..n];
    }
  }

  lemma {:induction false} DropWhileTakes(s: string, f: char -> bool) returns (front: string)
    ensures s == front + DropWhile(s, f) && Consists(front, f)
  {
    front := "";
    if s != "" && f(s[0]) {
      var more := DropWhileTakes(s[1..], f);
      front := [s[0]] + more;
    }
  }

  lemma {:induction false} DropWhileEndTakes(s: string, f: char -> bool) returns (back: string)
    ensures s == DropWhileEnd(s, f) + back && Consists(back, f)
  {
    back := "";
    if s != "" && f(s[|s| - 1]) {
      var n := |s| - 1;
      var more := DropWhileEndTakes(s[..n], f);
      back := more + [s[n]];
      assert s == s[..n] + [s[n]];
    }
  }

  // ---- Fences ----

  lemma LineEndGoes(lineEnd: string, rest: string)
    requires lineEnd == "\n" || lineEnd == "\r\n"
    ensures AfterLineEnd(lineEnd + rest) == Some(rest)
    ensures (lineEnd + rest)[0] == '\n' || (lineEnd + rest)[0] == '\r'
  {
    var t := lineEnd + rest;
    assert t[|lineEnd|..] == rest && lineEnd <= t;
    if lineEnd == "\r\n" { assert t[0] == '\r' && "\n"[0] == '\n'; }
  }

  lemma BackticksGo(s: string)
    ensures AfterFence("```" + s) == AfterLineEnd(DropWhile(DropWhile(s, IsFenceName), IsBlank))
  {
    var t := "```" + s;
    assert "```" <= t && t[3..] == s;
  }

  lemma OpeningJoins(open: Fence, rest: string)
    requires open.Fence?
    ensures Opening(open) + rest == "```" + (open.name + (open.blanks + (open.lineEnd + rest)))
  {
  }

  lemma OpeningGoes(open: Fence, rest: string)
    requires open.Fence? && IsFence(open)
    ensures AfterFence(Opening(open) + rest) == Some(rest)
  {
    var tail := open.lineEnd + rest;
    var next := open.blanks + tail;
    LineEndGoes(open.lineEnd, rest);
    DropWhileStops(open.blanks, IsBlank, tail);
    assert next[0] == if open.blanks == "" then tail[0] else open.blanks[0];
    DropWhileStops(open.name, IsFenceName, next);
    BackticksGo(open.name + next);
    OpeningJoins(open, rest);
  }

  lemma LineEndComesOff(s: string, lineEnd: string)
    requires lineEnd == "\n" || lineEnd == "\r\n"
    requires lineEnd == "\n" && s != "" ==> s[|s| - 1] != '\r'
    ensures BeforeLineEnd(s + lineEnd) == Some(s)
  {
    var t := s + lineEnd;
    assert t[|t| - |lineEnd|..] == lineEnd && t[..|t| - |lineEnd|] == s;
    if lineEnd == "\n" && s != "" {
      assert t[|t| - 2..][0] == s[|s| - 1] && "\r\n"[0] == '\r';
    }
  }

  lemma BackticksComeOff(s: string)
    ensures BeforeFence(s + "```") == BeforeLineEnd(DropWhileEnd(s, IsBlank))
  {
    var t := s + "```";
    assert t + "" == t && t[|t| - 1] == "```"[2] == '`';
    DropWhileEndStops(t, IsBlank, "");
    assert t[|t| - 3..] == "```" && t[..|t| - 3] == s;
  }

  lemma ClosingJoins(s: string, close: Fence)
    requires close.Fence?
    ensures s + Closing(close) == ((s + close.lineEnd) + close.blanks) + "```"
  {
  }

  lemma ClosingGoes(s: string, close: Fence)
    requires close.Fence? && IsFence(close)
    requires close.lineEnd == "\n" && s != "" ==> s[|s| - 1] != '\r'
    ensures BeforeFence(s + Closing(close)) == Some(s)
  {
    var front := s + close.lineEnd;
    ClosingJoins(s, close);
    BackticksComeOff(front + close.blanks);
    assert front[|front| - 1] == close.lineEnd[|close.lineEnd| - 1] == '\n';
    DropWhileEndStops(front, IsBlank, close.blanks);
    LineEndComesOff(s, close.lineEnd);
  }

  lemma NoOpeningThere(s: string)
    requires s != "" && s[0] != '`'
    ensures AfterFence(s).None?
  {
    assert "```"[0] == '`';
  }

  lemma NoClosingThere(s: string)
    requires s != "" && s[|s| - 1] != '`' && !TextTools.IsSpace(s[|s| - 1])
    ensures BeforeFence(s).None?
  {
    assert s + "" == s;
    DropWhileEndStops(s, IsBlank, "");
    EndsDiffer(s, "```");
  }

  /** Whatever comes off the front is a fence line. */
  lemma OpeningTaken(s: string) returns (open: Fence)
    ensures IsFence(open) && (open.Fence? <==> AfterFence(s).Some?)
    ensures s == Opening(open) + AfterFence(s).GetOr(s)
  {
    open := NoFence;
    if AfterFence(s).Some? {
      var name := DropWhileTakes(s[3..], IsFenceName);
      var t := DropWhile(s[3..], IsFenceName);
      var blanks := DropWhileTakes(t, IsBlank);
      var u := DropWhile(t, IsBlank);
      open := Fence(name, blanks, if "\n" <= u then "\n" else "\r\n");
      assert s == "```" + s[3..] && s[3..] == name + (blanks + u);
      assert u == open.lineEnd + AfterFence(s).value;
    }
  }

  lemma EndComesOff(s: string, end: string)
    requires EndsWith(s, end)
    ensures s == s[..|s| - |end|] + end
  {
  }

  lemma LineEndTaken(s: string) returns (lineEnd: string)
    requires BeforeLineEnd(s).Some?
    ensures (lineEnd == "\n" || lineEnd == "\r\n") && s == BeforeLineEnd(s).value + lineEnd
  {
    lineEnd := if EndsWith(s, "\r\n") then "\r\n" else "\n";
    EndComesOff(s, lineEnd);
  }

  lemma EndsInNoBlank(s: string)
    requires s != "" ==> !TextTools.IsSpace(s[|s| - 1])
    ensures DropWhileEnd(s, IsBlank) == s
  {
    DropWhileEndStops(s, IsBlank, "");
    assert s + "" == s;
  }

  /** Whatever comes off the end of a text that does not end in white space is a fence line. */
  lemma ClosingTaken(s: string) returns (close: Fence)
    requires s != "" ==> !TextTools.IsSpace(s[|s| - 1])
    ensures IsFence(close) && (close.Fence? <==> BeforeFence(s).Some?)
    ensures s == BeforeFence(s).GetOr(s) + Closing(close)
  {
    EndsInNoBlank(s);
    if BeforeFence(s).None? { return NoFence; }
    EndComesOff(s, "```");
    var t := s[..|s| - 3];
    var blanks := DropWhileEndTakes(t, IsBlank);
    var lineEnd := LineEndTaken(DropWhileEnd(t, IsBlank));
    close := Fence("", blanks, lineEnd);
    ClosingJoins(BeforeFence(s).value, close);
  }

  // ---- Prose ----

  lemma BraceAt(s: string, i: nat)
    ensures OccursAt(s, "{", i) <==> i < |s| && s[i] == '{'
  {
    if i < |s| { assert s[i..i + 1] == [s[i]]; }
  }

  lemma FirstBrace(s: string, i: nat)
    requires i < |s| && s[i] == '{' && forall k | 0 <= k < i :: s[k] != '{'
    ensures IndexOf(s, "{", 0) == i
  {
    var r := IndexOf(s, "{", 0);
    BraceAt(s, i);
    assert OccursAt(s, "{", i);
    if r >= 0 {
      BraceAt(s, r);
      assert s[r] == '{';
    }
  }

  lemma LastBrace(s: string, i: nat)
    requires i < |s| && s[i] == '}' && forall k | i < k < |s| :: s[k] != '}'
    ensures LastIndexOf(s, '}') == i
  {
  }

  lemma UnwrapAt(s: string, i: nat, j: nat)
    requires i < j < |s| && s[i] == '{' && s[j] == '}'
    requires (forall k | 0 <= k < i :: s[k] != '{') && forall k | j < k < |s| :: s[k] != '}'
    ensures Unwrap(s) == (s[i..j + 1], if i > 0 || j < |s| - 1 then {TrimmedWrapper} else {})
  {
    FirstBrace(s, i);
    LastBrace(s, j);
    assert s[0..|s|] == s;
  }

  lemma UnwrapFinds(before: string, v: string, after: string)
    requires Braced(v) && '{' !in before && '}' !in after
    ensures Unwrap(before + (v + after)) == (v, ProseRepairs(before, after))
  {
    var s, tail := before + (v + after), v + after;
    var i, j := |before|, |before| + |v| - 1;
    forall k | 0 <= k < i ensures s[k] != '{' { assert s[k] == before[k]; }
    forall k | j < k < |s| ensures s[k] != '}' { assert s[k] == tail[k - i] == after[k - j - 1]; }
    assert s[i] == tail[0] == v[0] && s[j] == tail[|v| - 1] == v[|v| - 1];
    assert s[i..j + 1] == v;
    UnwrapAt(s, i, j);
  }

  lemma UnwrapLeaves(s: string)
    requires NothingBraced(s)
    ensures Unwrap(s) == (s, {})
  {
    var first := IndexOf(s, "{", 0);
    if first >= 0 { BraceAt(s, first); }
  }

  lemma ThreeParts(s: string, i: nat, j: nat)
    requires i <= j <= |s|
    ensures s == s[..i] + (s[i..j] + s[j..])
  {
  }

  lemma CutsAt(s: string, i: nat, j: nat)
    requires i < j < |s| && s[i] == '{' && s[j] == '}'
    requires (forall k | 0 <= k < i :: s[k] != '{') && forall k | j < k < |s| :: s[k] != '}'
    ensures Braced(s[i..j + 1]) && '{' !in s[..i] && '}' !in s[j + 1..]
  {
  }

  lemma {:induction false} FirstOf(s: string, c: char, n: nat) returns (i: nat)
    requires n < |s| && s[n] == c
    ensures i <= n && s[i] == c && forall k | 0 <= k < i :: s[k] != c
  {
    i := n;
    if k :| 0 <= k < n && s[k] == c { i := FirstOf(s, c, k); }
  }

  lemma {:induction false} LastOf(s: string, c: char, n: nat) returns (i: nat)
    requires n < |s| && s[n] == c
    ensures n <= i < |s| && s[i] == c && forall k | i < k < |s| :: s[k] != c
    decreases |s| - n
  {
    i := n;
    if k :| n < k < |s| && s[k] == c { i := LastOf(s, c, k); }
  }

  lemma OuterBraces(s: string) returns (i: nat, j: nat)
    requires !NothingBraced(s)
    ensures i < j < |s| && s[i] == '{' && s[j] == '}'
    ensures (forall k | 0 <= k < i :: s[k] != '{') && forall k | j < k < |s| :: s[k] != '}'
  {
    var m, n :| 0 <= m < n < |s| && s[m] == '{' && s[n] == '}';
    i := FirstOf(s, '{', m);
    j := LastOf(s, '}', n);
  }

  lemma CutInThree(s: string) returns (before: string, text: string, after: string)
    requires !NothingBraced(s)
    ensures s == before + (text + after) && Braced(text) && '{' !in before && '}' !in after
  {
    var i, j := OuterBraces(s);
    before, text, after := s[..i], s[i..j + 1], s[j + 1..];
    CutsAt(s, i, j);
    ThreeParts(s, i, j + 1);
  }

  /** What is cut off holds no opening brace before the payload and no closing one after it. */
  lemma UnwrapTakes(s: string) returns (before: string, after: string)
    ensures s == before + (Unwrap(s).0 + after) && '{' !in before && '}' !in after
    ensures Unwrap(s).1 == ProseRepairs(before, after)
    ensures Braced(Unwrap(s).0) || (before == after == "" && NothingBraced(s))
  {
    if NothingBraced(s) {
      before, after := "", "";
      UnwrapLeaves(s);
      assert s == "" + (s + "");
    } else {
      var text;
      before, text, after := CutInThree(s);
      UnwrapFinds(before, text, after);
    }
  }

  // ---- A whole source ----

  /** A payload in its surroundings. Prose beside a payload without a fence on that side has no outer space. */
  datatype Wrapping = Wrapping(space: string, open: Fence, before: string, after: string, close: Fence, tail: string)
  {
    predicate Valid() {
      && AllSpace(space) && AllSpace(tail) && IsFence(open) && IsFence(close)
      && (open.NoFence? && before != "" ==> !TextTools.IsSpace(before[0]))
      && (close.NoFence? && after != "" ==> !TextTools.IsSpace(after[|after| - 1]))
      && (close.Fence? && close.lineEnd == "\n" && after != "" ==> after[|after| - 1] != '\r')
    }

    /** The prose and the payload. */
    function Inside(text: string): string {
      before + (text + after)
    }

    function Source(text: string): string {
      space + (Opening(open) + (Inside(text) + Closing(close))) + tail
    }

    function Repairs(): set<Repair> {
      FenceRepairs(open, close) + ProseRepairs(before, after)
    }
  }

  /** A text that can stand between fences, or alone between white space. */
  predicate Standalone(s: string) {
    s != "" && s[0] != '`' && s[|s| - 1] != '`' && !TextTools.IsSpace(s[0]) && !TextTools.IsSpace(s[|s| - 1])
  }

  lemma FencesGo(open: Fence, inside: string, close: Fence)
    requires IsFence(open) && IsFence(close) && inside != ""
    requires open.NoFence? ==> inside[0] != '`' && !TextTools.IsSpace(inside[0])
    requires close.NoFence? ==> inside[|inside| - 1] != '`' && !TextTools.IsSpace(inside[|inside| - 1])
    requires close.Fence? && close.lineEnd == "\n" ==> inside[|inside| - 1] != '\r'
    ensures var rest := inside + Closing(close);
            && AfterFence(Opening(open) + rest) == (if open.Fence? then Some(rest) else None)
            && (open.NoFence? ==> Opening(open) + rest == rest)
            && BeforeFence(rest) == (if close.Fence? then Some(inside) else None)
            && (close.NoFence? ==> rest == inside)
  {
    var rest := inside + Closing(close);
    if open.Fence? {
      OpeningGoes(open, rest);
    } else {
      assert Opening(open) + rest == rest && rest[0] == inside[0];
      NoOpeningThere(rest);
    }
    if close.Fence? {
      ClosingGoes(inside, close);
    } else {
      assert rest == inside;
      NoClosingThere(rest);
    }
  }

  lemma SpaceGoes(w: Wrapping, inside: string)
    requires w.Valid() && inside != ""
    requires w.open.NoFence? ==> !TextTools.IsSpace(inside[0])
    requires w.close.NoFence? ==> !TextTools.IsSpace(inside[|inside| - 1])
    ensures var core := Opening(w.open) + (inside + Closing(w.close)); TextTools.Trim(w.space + core + w.tail) == core
  {
    var front, rest := Opening(w.open), inside + Closing(w.close);
    assert rest[0] == inside[0] && (w.close.NoFence? ==> rest == inside);
    if w.open.Fence? { assert front[0] == "```"[0] == '`'; }
    if w.close.Fence? { assert rest[|rest| - 1] == Closing(w.close)[|Closing(w.close)| - 1] == "```"[2] == '`'; }
    assert (front + rest)[|front + rest| - 1] == rest[|rest| - 1];
    TrimDropsSpace(w.space, front + rest, w.tail);
  }

  /** Whatever its surroundings, the payload is found: a text in braces, in any prose without braces and backticks. */
  lemma WrappedIsFound(w: Wrapping, text: string)
    requires w.Valid() && IsProse(w.before) && IsProse(w.after) && Braced(text)
    ensures Prepare(w.Source(text)) == (text, w.Repairs())
  {
    var inside := w.Inside(text);
    assert inside[0] == if w.before == "" then text[0] else w.before[0];
    assert inside[|inside| - 1] == if w.after == "" then text[|text| - 1] else w.after[|w.after| - 1];
    SpaceGoes(w, inside);
    FencesGo(w.open, inside, w.close);
    UnwrapFinds(w.before, text, w.after);
  }

  /** And so is a text without braces, an array of numbers say, which nothing but space and fences can stand beside. */
  lemma FencedIsFound(w: Wrapping, text: string)
    requires w.Valid() && w.before == w.after == "" && Standalone(text) && IsProse(text)
    ensures Prepare(w.Source(text)) == (text, w.Repairs())
  {
    assert w.Inside(text) == text;
    SpaceGoes(w, text);
    FencesGo(w.open, text, w.close);
    UnwrapLeaves(text);
  }

  lemma RepairsAre(w: Wrapping)
    ensures NestedFence in w.Repairs() <==> w.open.Fence? || w.close.Fence?
    ensures TrimmedWrapper in w.Repairs() <==> w.before != "" || w.after != ""
    ensures w.Repairs() <= {NestedFence, TrimmedWrapper}
  {
  }

  lemma NothingMore(text: string)
    requires Braced(text) && Repaired(text) == (text, {})
    ensures Scan(text, false).text == text && Scan(text, false).repairs == {}
  {
    BracedIsPrepared(text);
    assert {} + Scan(text, false).repairs == Scan(text, false).repairs;
  }

  lemma WrappedIsRepaired(w: Wrapping, text: string)
    requires w.Valid() && IsProse(w.before) && IsProse(w.after) && Braced(text) && Repaired(text) == (text, {})
    ensures Repaired(w.Source(text)) == (text, w.Repairs())
  {
    WrappedIsFound(w, text);
    NothingMore(text);
    assert w.Repairs() + {} == w.Repairs();
  }

  /**
   * A valid object comes out as it is, of whatever surrounds it, and what surrounded it is what is reported
   * as repaired: a fence on either side, prose on either side, or both.
   */
  lemma WrappedObjectIsFound(w: Wrapping, members: Members)
    requires w.Valid() && IsProse(w.before) && IsProse(w.after) && IsMembers(members)
    ensures Repaired(w.Source(Print(Object(members)))) == (Print(Object(members)), w.Repairs())
    ensures NestedFence in w.Repairs() <==> w.open.Fence? || w.close.Fence?
    ensures TrimmedWrapper in w.Repairs() <==> w.before != "" || w.after != ""
    ensures w.Repairs() <= {NestedFence, TrimmedWrapper}
  {
    ValidObjectIsUnchanged(members);
    RepairsAre(w);
    WrappedIsRepaired(w, Print(Object(members)));
  }

  lemma FencesTaken(s: string) returns (open: Fence, close: Fence)
    requires s != "" ==> !TextTools.IsSpace(s[|s| - 1])
    ensures IsFence(open) && IsFence(close)
    ensures var t := AfterFence(s).GetOr(s);
            && s == Opening(open) + (BeforeFence(t).GetOr(t) + Closing(close))
            && (open.Fence? <==> AfterFence(s).Some?) && (close.Fence? <==> BeforeFence(t).Some?)
  {
    open := OpeningTaken(s);
    var t := AfterFence(s).GetOr(s);
    if t != "" { assert t[|t| - 1] == s[|s| - 1]; }
    close := ClosingTaken(t);
  }

  /**
   * Whatever the source, the text the pass is run on is a slice of it, and around it there is nothing but white
   * space, fence lines, and prose with no opening brace before the slice and no closing one after it. Prose is
   * cut off a slice in braces only; otherwise no opening brace of the text comes before a closing one.
   */
  lemma PreparedIsWrapped(source: string) returns (w: Wrapping)
    ensures source == w.Source(Prepare(source).0) && Prepare(source).1 == w.Repairs()
    ensures AllSpace(w.space) && AllSpace(w.tail) && IsFence(w.open) && IsFence(w.close)
    ensures '{' !in w.before && '}' !in w.after
    ensures Braced(Prepare(source).0) || (w.before == w.after == "" && NothingBraced(Prepare(source).0))
  {
    var space, tail := TrimTakesSpace(source);
    var t0 := TextTools.Trim(source);
    var open, close := FencesTaken(t0);
    var t1 := AfterFence(t0).GetOr(t0);
    var before, after := UnwrapTakes(BeforeFence(t1).GetOr(t1));
    w := Wrapping(space, open, before, after, close, tail);
  }
}
