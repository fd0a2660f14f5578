/** Text helpers that several components share: trimming, splitting, and numbers in decimal notation. */
module TextTools {
  /** The characters JavaScript's `trim` and `parseInt` skip. */
  predicate IsSpace(c: char) {
    c in " \t\n\r" || c as int in {0x0B, 0x0C, 0xA0, 0x1680, 0x2028, 0x2029, 0x202F, 0x205F, 0x3000, 0xFEFF}
    || 0x2000 <= c as int <= 0x200A
  }

  predicate AllSpace(s: string) {
    forall k | 0 <= k < |s| :: IsSpace(s[k])
  }

  function TrimStart(s: string): string {
    if s != [] && IsSpace(s[0]) then TrimStart(s[1..]) else s
  }

  function TrimEnd(s: string): string {
    if s != [] && IsSpace(s[|s| - 1]) then TrimEnd(s[..|s| - 1]) else s
  }

  function Trim(s: string): string {
    TrimEnd(TrimStart(s))
  }

  function DropLeading(s: string, chars: string): string {
    if s != [] && s[0] in chars then DropLeading(s[1..], chars) else s
  }

  /** The text before the first `c`, or all of it. */
  function Before(s: string, c: char): (r: string)
    ensures r <= s
  {
    if s == [] || s[0] == c then [] else [s[0]] + Before(s[1..], c)
  }

  /** The pieces of a text with the character `x` in front, given the pieces without it. */
  function Prepended(x: char, c: char, pieces: seq<string>): (r: seq<string>)
    requires |pieces| >= 1
    ensures |r| >= 1
  {
    if x == c then [""] + pieces else [[x] + pieces[0]] + pieces[1..]
  }

  /** The pieces of `s` between the occurrences of `c`; never empty. */
  function Split(s: string, c: char): (r: seq<string>)
    ensures |r| >= 1
  {
    if s == [] then [""] else Prepended(s[0], c, Split(s[1..], c))
  }

  // ---- Trimming ----

  lemma {:induction false} TrimStartDrops(front: string, s: string)
    requires AllSpace(front) && (s != "" ==> !IsSpace(s[0]))
    ensures TrimStart(front + s) == s
  {
    if front == "" {
      assert front + s == s;
    } else {
      TrimStartDrops(front[1..], s);
      assert (front + s)[1..] == front[1..] + s;
    }
  }

  lemma {:induction false} TrimEndDrops(s: string, back: string)
    requires AllSpace(back) && (s != "" ==> !IsSpace(s[|s| - 1]))
    ensures TrimEnd(s + back) == s
  {
    if back == "" {
      assert s + back == s;
    } else {
      var n := |back| - 1;
      TrimEndDrops(s, back[..n]);
      assert (s + back)[..|s + back| - 1] == s + back[..n];
    }
  }

  /** Only the surrounding white space goes. */
  lemma TrimDropsSpace(front: string, s: string, back: string)
    requires AllSpace(front) && AllSpace(back)
    requires s != "" && !IsSpace(s[0]) && !IsSpace(s[|s| - 1])
    ensures Trim(front + s + back) == s
  {
    TrimStartDrops(front, s + back);
    assert front + s + back == front + (s + back);
    TrimEndDrops(s, back);
  }

  lemma {:induction false} TrimStartTakes(s: string) returns (front: string)
    ensures s == front + TrimStart(s) && AllSpace(front)
    ensures TrimStart(s) != "" ==> !IsSpace(TrimStart(s)[0])
  {
    if s != "" && IsSpace(s[0]) {
      var rest := TrimStartTakes(s[1..]);
      front := [s[0]] + rest;
    } else {
      front := "";
    }
  }

  lemma {:induction false} TrimEndTakes(s: string)
    ensures TrimEnd(s) <= s && forall k | |TrimEnd(s)| <= k < |s| :: IsSpace(s[k])
    ensures TrimEnd(s) != "" ==> !IsSpace(s[|TrimEnd(s)| - 1])
  {
    if s != "" && IsSpace(s[|s| - 1]) {
      TrimEndTakes(s[..|s| - 1]);
    }
  }

  /** And what goes is white space, down to the first and the last character that is not. */
  lemma TrimTakesSpace(s: string) returns (front: string, back: string)
    ensures s == front + Trim(s) + back && AllSpace(front) && AllSpace(back)
    ensures Trim(s) != "" ==> !IsSpace(Trim(s)[0]) && !IsSpace(Trim(s)[|Trim(s)| - 1])
  {
    front := TrimStartTakes(s);
    var t := TrimStart(s);
    TrimEndTakes(t);
    back := t[|Trim(s)|..];
  }

  // ---- Splitting ----

  lemma {:induction false} BeforeStops(s: string, c: char, rest: string)
    requires c !in s && (rest != "" ==> rest[0] == c)
    ensures Before(s + rest, c) == s
  {
    if s == "" {
      assert s + rest == rest;
    } else {
      BeforeStops(s[1..], c, rest);
      assert (s + rest)[1..] == s[1..] + rest;
    }
  }

  lemma {:induction false} SplitWhole(s: string, c: char)
    requires c !in s
    ensures Split(s, c) == [s]
  {
    if s != "" {
      SplitWhole(s[1..], c);
      assert [s[0]] + s[1..] == s;
    }
  }

  lemma SplitCons(x: char, s: string, c: char)
    ensures Split([x] + s, c) == Prepended(x, c, Split(s, c))
  {
    assert ([x] + s)[1..] == s;
  }

  lemma LaterPiecesStay(x: char, c: char, pieces: seq<string>, later: seq<string>)
    requires |pieces| >= 1
    ensures Prepended(x, c, pieces + later) == Prepended(x, c, pieces) + later
  {
    assert (pieces + later)[1..] == pieces[1..] + later;
  }

  lemma {:induction false} SplitAt(s: string, c: char, rest: string)
    ensures Split(s + ([c] + rest), c) == Split(s, c) + Split(rest, c)
  {
    if s == "" {
      SplitCons(c, rest, c);
      assert s + ([c] + rest) == [c] + rest;
    } else {
      var x, t, whole := s[0], s[1..], s[1..] + ([c] + rest);
      SplitAt(t, c, rest);
      assert s + ([c] + rest) == [x] + whole;
      SplitCons(x, whole, c);
      LaterPiecesStay(x, c, Split(t, c), Split(rest, c));
    }
  }

  lemma {:induction false} BeforeIsFirst(s: string, c: char)
    ensures Split(s, c)[0] == Before(s, c)
  {
    if s != "" && s[0] != c { BeforeIsFirst(s[1..], c); }
  }

  lemma FirstPiece(s: string, c: char, rest: string)
    requires c !in s
    ensures Split(s + ([c] + rest), c) == [s] + Split(rest, c)
  {
    SplitAt(s, c, rest);
    SplitWhole(s, c);
  }

  /** The first piece is at the front, and each character but the separators is in some piece. */
  lemma {:induction false} PiecesCover(s: string, c: char)
    ensures Split(s, c)[0] <= s
    ensures forall i | 0 <= i < |s| && s[i] != c :: exists k :: 0 <= k < |Split(s, c)| && s[i] in Split(s, c)[k]
  {
    if s != "" {
      var r, t := Split(s, c), Split(s[1..], c);
      PiecesCover(s[1..], c);
      forall i | 0 <= i < |s| && s[i] != c ensures exists k :: 0 <= k < |r| && s[i] in r[k] {
        if i == 0 {
          assert r[0][0] == s[0];
        } else {
          assert s[1..][i - 1] == s[i];
          var k :| 0 <= k < |t| && s[i] in t[k];
          if s[0] == c {
            assert r[k + 1] == t[k];
          } else if k == 0 {
            assert r[0] == [s[0]] + t[0];
          } else {
            assert r[k] == t[k];
          }
        }
      }
    }
  }

  // ---- Numbers ----

  predicate IsDigit(c: char) {
    '0' <= c <= '9'
  }

  predicate Numeric(s: string) {
    s != [] && forall i | 0 <= i < |s| :: IsDigit(s[i])
  }

  /** The value of the decimal digits at the front of `s`, continuing from `acc`. */
  function LeadingNumber(s: string, acc: nat): nat {
    if s != [] && IsDigit(s[0]) then LeadingNumber(s[1..], 10 * acc + (s[0] as int - '0' as int)) else acc
  }

  function Digit(d: nat): char
    requires d < 10
  {
    '0' + d as char
  }

  /** Decimal notation. */
  function Decimal(n: nat): (s: string)
    ensures s != "" && forall k :: 0 <= k < |s| ==> '0' <= s[k] <= '9'
  {
    if n < 10 then [Digit(n)] else Decimal(n / 10) + [Digit(n % 10)]
  }

  /** The number at the front is read back, whatever that is not a digit comes after it. */
  lemma {:induction false} NumberIsReadBack(n: nat, rest: string)
    ensures LeadingNumber(Decimal(n) + rest, 0) == LeadingNumber(rest, n)
  {
    if n < 10 {
      assert (Decimal(n) + rest)[1..] == rest;
    } else {
      var tail := [Digit(n % 10)] + rest;
      NumberIsReadBack(n / 10, tail);
      assert Decimal(n) + rest == Decimal(n / 10) + tail;
      assert tail[1..] == rest;
    }
  }
}
