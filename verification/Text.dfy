/** The string operations evidence checking rests on, over any whitespace class and case folding. */
module Text {

  /** The character classes of the runtime: whitespace, line breaks, and full case folding of a character. */
  datatype Charset = Charset(space: char -> bool, lineBreak: char -> bool, fold: char -> string)

  /** `sub in s` */
  predicate Contains(s: string, sub: string) {
    exists i :: 0 <= i <= |s| && sub <= s[i..]
  }

  lemma ContainsMiddle(u: string, q: string, v: string)
    ensures Contains(u + q + v, q)
  {
    assert (u + q + v)[|u|..] == q + v;
  }

  lemma ContainsParts(s: string, q: string) returns (u: string, v: string)
    requires Contains(s, q)
    ensures s == u + q + v
  {
    var i :| 0 <= i <= |s| && q <= s[i..];
    u, v := s[..i], s[i + |q|..];
    assert s[i..][..|q|] == q;
    assert s == s[..i] + s[i..] && s[i..] == s[i..][..|q|] + s[i..][|q|..];
    assert s[i..][|q|..] == s[i + |q|..];
  }

  lemma Regroups(u: string, x: string, r: string, y: string, v: string)
    ensures u + (x + r + y) + v == (u + x) + r + (y + v)
  {
  }

  lemma ContainsTransitive(s: string, q: string, r: string)
    requires Contains(s, q) && Contains(q, r)
    ensures Contains(s, r)
  {
    var u, v := ContainsParts(s, q);
    var x, y := ContainsParts(q, r);
    Regroups(u, x, r, y, v);
    ContainsMiddle(u + x, r, y + v);
  }

  // -------------------------------------------------------------------------- words and whitespace

  function WordLength(c: Charset, s: string): (n: nat)
    ensures n <= |s| && (n < |s| ==> c.space(s[n]))
    ensures forall i :: 0 <= i < n ==> !c.space(s[i])
  {
    if s == "" || c.space(s[0]) then 0 else 1 + WordLength(c, s[1..])
  }

  /** `s.split()` */
  function Words(c: Charset, s: string): seq<string>
    decreases |s|
  {
    if s == "" then []
    else if c.space(s[0]) then Words(c, s[1..])
    else
      var n := WordLength(c, s);
      [s[..n]] + Words(c, s[n..])
  }

  /** `" ".join(ws)` */
  function Join(ws: seq<string>): string {
    if ws == [] then "" else if |ws| == 1 then ws[0] else ws[0] + " " + Join(ws[1..])
  }

  /** Where a left-to-right squeeze of whitespace stands: nothing out yet, in a word, or in a gap. */
  datatype Mode = AtStart | InWord | InGap

  function Advance(c: Charset, m: Mode, x: char): Mode {
    if !c.space(x) then InWord else if m == AtStart then AtStart else InGap
  }

  function Emit(c: Charset, m: Mode, x: char): string {
    if c.space(x) then "" else if m == InGap then " " + [x] else [x]
  }

  function ModeAfter(c: Charset, s: string, m: Mode): Mode {
    if s == "" then m else ModeAfter(c, s[1..], Advance(c, m, s[0]))
  }

  function Squeeze(c: Charset, s: string, m: Mode): string {
    if s == "" then "" else Emit(c, m, s[0]) + Squeeze(c, s[1..], Advance(c, m, s[0]))
  }

  lemma {:induction false} SqueezeConcat(c: Charset, s: string, t: string, m: Mode)
    ensures Squeeze(c, s + t, m) == Squeeze(c, s, m) + Squeeze(c, t, ModeAfter(c, s, m))
  {
    if s == "" {
      assert s + t == t;
    } else {
      assert (s + t)[1..] == s[1..] + t;
      SqueezeConcat(c, s[1..], t, Advance(c, m, s[0]));
    }
  }

  /** Starting mid-text instead of afresh adds at most one space in front. */
  lemma {:induction false} SqueezeFromAnywhere(c: Charset, s: string, m: Mode)
    ensures Squeeze(c, s, m) == Squeeze(c, s, AtStart) || Squeeze(c, s, m) == " " + Squeeze(c, s, AtStart)
  {
    if s != "" && c.space(s[0]) && m != AtStart {
      SqueezeFromAnywhere(c, s[1..], InGap);
    }
  }

  lemma ContainsAfterGap(before: string, gap: string, piece: string, after: string)
    ensures Contains(before + (gap + piece + after), piece)
  {
    assert before + (gap + piece + after) == before + gap + piece + after;
    ContainsMiddle(before + gap, piece, after);
  }

  lemma SqueezeKeepsMiddle(c: Charset, u: string, q: string, v: string)
    ensures Contains(Squeeze(c, u + (q + v), AtStart), Squeeze(c, q, AtStart))
  {
    var m := ModeAfter(c, u, AtStart);
    var before, piece, after := Squeeze(c, u, AtStart), Squeeze(c, q, AtStart), Squeeze(c, v, ModeAfter(c, q, m));
    SqueezeConcat(c, u, q + v, AtStart);
    SqueezeConcat(c, q, v, m);
    SqueezeFromAnywhere(c, q, m);
    if Squeeze(c, q, m) == piece {
      assert "" + piece == piece;
      ContainsAfterGap(before, "", piece, after);
    } else {
      ContainsAfterGap(before, " ", piece, after);
    }
  }

  /** A piece of a text stays a piece of it after both are squeezed. */
  lemma SqueezeKeepsPieces(c: Charset, t: string, q: string)
    requires Contains(t, q)
    ensures Contains(Squeeze(c, t, AtStart), Squeeze(c, q, AtStart))
  {
    var u, v := ContainsParts(t, q);
    assert t == u + (q + v);
    SqueezeKeepsMiddle(c, u, q, v);
  }

  lemma {:induction false} SqueezeWord(c: Charset, w: string, m: Mode)
    requires w != "" && m != InGap && forall i :: 0 <= i < |w| ==> !c.space(w[i])
    ensures Squeeze(c, w, m) == w && ModeAfter(c, w, m) == InWord
  {
    if |w| == 1 {
      assert w[1..] == "";
    } else {
      SqueezeWord(c, w[1..], InWord);
    }
  }

  /** The words after a gap, joined. */
  function JoinAfter(ws: seq<string>): string {
    if ws == [] then "" else " " + Join(ws)
  }

  lemma JoinCons(w: string, ws: seq<string>)
    ensures Join([w] + ws) == w + JoinAfter(ws)
  {
    assert ([w] + ws)[1..] == ws;
    if ws == [] {
      assert w + "" == w;
    } else {
      assert w + " " + Join(ws) == w + (" " + Join(ws));
    }
  }

  lemma SqueezeAcrossGap(c: Charset, s: string)
    ensures s == "" || c.space(s[0]) ==> Squeeze(c, s, InWord) == Squeeze(c, s, InGap)
    ensures s != "" && !c.space(s[0]) ==> Squeeze(c, s, InGap) == " " + Squeeze(c, s, AtStart)
  {
  }

  /** Joining the words with single spaces is the squeeze. */
  ghost predicate JoinsSqueezed(c: Charset, s: string) {
    Squeeze(c, s, AtStart) == Join(Words(c, s)) && Squeeze(c, s, InGap) == JoinAfter(Words(c, s))
  }

  lemma {:induction false} JoinedWordsAreSqueezed(c: Charset, s: string)
    ensures Squeeze(c, s, AtStart) == Join(Words(c, s))
    ensures JoinsSqueezed(c, s)
    decreases |s|
  {
    if s == "" {
    } else if c.space(s[0]) {
      JoinedWordsAreSqueezed(c, s[1..]);
      SpaceThenRest(c, s);
    } else {
      var n := WordLength(c, s);
      JoinedWordsAreSqueezed(c, s[n..]);
      assert s == s[..n] + s[n..];
      WordThenRest(c, s, s[..n], s[n..]);
      assert Words(c, s) == [s[..n]] + Words(c, s[n..]);
    }
  }

  lemma SpaceThenRest(c: Charset, s: string)
    requires s != "" && c.space(s[0]) && JoinsSqueezed(c, s[1..])
    ensures JoinsSqueezed(c, s)
  {
  }

  lemma WordThenRest(c: Charset, s: string, w: string, rest: string)
    requires s == w + rest && w != "" && forall i :: 0 <= i < |w| ==> !c.space(w[i])
    requires rest == "" || c.space(rest[0])
    requires JoinsSqueezed(c, rest)
    ensures Squeeze(c, s, AtStart) == Join([w] + Words(c, rest))
    ensures Squeeze(c, s, InGap) == JoinAfter([w] + Words(c, rest))
  {
    FirstWordSqueezed(c, w, rest);
    JoinCons(w, Words(c, rest));
    SqueezeAcrossGap(c, s);
  }

  lemma FirstWordSqueezed(c: Charset, w: string, rest: string)
    requires w != "" && forall i :: 0 <= i < |w| ==> !c.space(w[i])
    requires rest == "" || c.space(rest[0])
    ensures Squeeze(c, w + rest, AtStart) == w + Squeeze(c, rest, InGap)
  {
    SqueezeWord(c, w, AtStart);
    SqueezeConcat(c, w, rest, AtStart);
    SqueezeAcrossGap(c, rest);
  }

  // ------------------------------------------------------------------------------------ case folding

  /** `s.casefold()` */
  function Casefold(c: Charset, s: string): string {
    if s == "" then "" else c.fold(s[0]) + Casefold(c, s[1..])
  }

  lemma {:induction false} CasefoldConcat(c: Charset, s: string, t: string)
    ensures Casefold(c, s + t) == Casefold(c, s) + Casefold(c, t)
  {
    if s == "" {
      assert s + t == t;
    } else {
      assert (s + t)[1..] == s[1..] + t;
      CasefoldConcat(c, s[1..], t);
    }
  }

  /** Case folding goes character by character. */
  lemma CasefoldOne(c: Charset, x: char)
    ensures Casefold(c, [x]) == c.fold(x)
  {
    assert [x][1..] == "" && c.fold(x) + "" == c.fold(x);
  }

  /** `" ".join(s.split()).casefold()` */
  function Normalized(c: Charset, s: string): string {
    Casefold(c, Join(Words(c, s)))
  }

  /** A piece of a text stays a piece of it after both are normalized. */
  lemma NormalizedKeepsPieces(c: Charset, t: string, q: string)
    requires Contains(t, q)
    ensures Contains(Normalized(c, t), Normalized(c, q))
  {
    JoinedWordsAreSqueezed(c, t);
    JoinedWordsAreSqueezed(c, q);
    SqueezeKeepsPieces(c, t, q);
    var u, v := ContainsParts(Squeeze(c, t, AtStart), Squeeze(c, q, AtStart));
    CasefoldConcat(c, u + Squeeze(c, q, AtStart), v);
    CasefoldConcat(c, u, Squeeze(c, q, AtStart));
    ContainsMiddle(Casefold(c, u), Normalized(c, q), Casefold(c, v));
  }

  // --------------------------------------------------------------------------- stripping and lines

  function StripLeft(drop: char -> bool, s: string): (r: string)
    ensures |r| <= |s| && r == s[|s| - |r|..]
    ensures r == "" || !drop(r[0])
  {
    if s == "" || !drop(s[0]) then s else StripLeft(drop, s[1..])
  }

  function StripRight(drop: char -> bool, s: string): (r: string)
    ensures r <= s
    ensures r == "" || !drop(r[|r| - 1])
  {
    if s == "" || !drop(s[|s| - 1]) then s else StripRight(drop, s[..|s| - 1])
  }

  /** `s.strip(chars)` */
  function Strip(drop: char -> bool, s: string): (r: string)
    ensures Contains(s, r)
    ensures r == "" || (!drop(r[0]) && !drop(r[|r| - 1]))
  {
    var left := StripLeft(drop, s);
    var r := StripRight(drop, left);
    assert r <= s[|s| - |left|..];
    r
  }

  lemma NothingToStrip(drop: char -> bool, s: string)
    requires s == "" || (!drop(s[0]) && !drop(s[|s| - 1]))
    ensures StripLeft(drop, s) == s && StripRight(drop, s) == s && Strip(drop, s) == s
  {
  }

  predicate AllDropped(drop: char -> bool, s: string) {
    forall i :: 0 <= i < |s| ==> drop(s[i])
  }

  lemma {:induction false} StripLeftPadding(drop: char -> bool, u: string, t: string)
    requires AllDropped(drop, u) && (t == "" || !drop(t[0]))
    ensures StripLeft(drop, u + t) == t
  {
    if u == "" {
      assert u + t == t;
    } else {
      assert (u + t)[1..] == u[1..] + t;
      StripLeftPadding(drop, u[1..], t);
    }
  }

  lemma {:induction false} StripRightPadding(drop: char -> bool, t: string, v: string)
    requires AllDropped(drop, v) && (t == "" || !drop(t[|t| - 1]))
    ensures StripRight(drop, t + v) == t
    decreases |v|
  {
    if v == "" {
      assert t + v == t;
    } else {
      assert (t + v)[..|t + v| - 1] == t + v[..|v| - 1];
      StripRightPadding(drop, t, v[..|v| - 1]);
    }
  }

  /** Stripping undoes padding, and only that. */
  lemma StripUndoesPadding(drop: char -> bool, u: string, t: string, v: string)
    requires AllDropped(drop, u) && AllDropped(drop, v) && t != "" && !drop(t[0]) && !drop(t[|t| - 1])
    ensures Strip(drop, u + t + v) == t
  {
    assert u + t + v == u + (t + v);
    StripLeftPadding(drop, u, t + v);
    StripRightPadding(drop, t, v);
  }

  lemma StripShortens(drop: char -> bool, s: string)
    ensures |Strip(drop, s)| <= |s|
  {
  }

  function Truncate(s: string, n: nat): (r: string)
    ensures Contains(s, r) && (|s| <= n ==> r == s)
    ensures |r| == if |s| <= n then |s| else n
  {
    var r := if |s| <= n then s else s[..n];
    assert r <= s[0..];
    r
  }

  function LineLength(c: Charset, s: string): (n: nat)
    ensures n <= |s|
  {
    if s == "" || c.lineBreak(s[0]) then 0 else 1 + LineLength(c, s[1..])
  }

  /** `s.splitlines()` for a text without carriage returns. */
  function SplitLines(c: Charset, s: string): seq<string>
    decreases |s|
  {
    if s == "" then []
    else
      var n := LineLength(c, s);
      [s[..n]] + if n < |s| then SplitLines(c, s[n + 1..]) else []
  }

  lemma {:induction false} OneLine(c: Charset, s: string)
    requires s != "" && forall i :: 0 <= i < |s| ==> !c.lineBreak(s[i])
    ensures SplitLines(c, s) == [s]
  {
    LineIsWhole(c, s);
    assert s[..|s|] == s;
  }

  lemma {:induction false} LineIsWhole(c: Charset, s: string)
    requires forall i :: 0 <= i < |s| ==> !c.lineBreak(s[i])
    ensures LineLength(c, s) == |s|
  {
    if s != "" {
      LineIsWhole(c, s[1..]);
    }
  }

  /** The lines, each ended by `nl`. */
  function Unlines(nl: char, lines: seq<string>): string {
    if lines == [] then "" else lines[0] + [nl] + Unlines(nl, lines[1..])
  }

  predicate Unbroken(c: Charset, s: string) {
    forall i :: 0 <= i < |s| ==> !c.lineBreak(s[i])
  }

  lemma {:induction false} LineEnds(c: Charset, line: string, nl: char, rest: string)
    requires Unbroken(c, line) && c.lineBreak(nl)
    ensures LineLength(c, line + ([nl] + rest)) == |line|
  {
    if line == "" {
      assert line + ([nl] + rest) == [nl] + rest;
    } else {
      assert (line + ([nl] + rest))[1..] == line[1..] + ([nl] + rest);
      LineEnds(c, line[1..], nl, rest);
    }
  }

  lemma SplitsFirst(c: Charset, line: string, nl: char, rest: string)
    requires Unbroken(c, line) && c.lineBreak(nl)
    ensures SplitLines(c, line + ([nl] + rest)) == [line] + SplitLines(c, rest)
  {
    var s := line + ([nl] + rest);
    LineEnds(c, line, nl, rest);
    assert s[..|line|] == line && s[|line| + 1..] == rest;
  }

  /** Lines written out and split again are the same lines, the last one ended or not. */
  lemma {:induction false} SplitUndoesLines(c: Charset, nl: char, lines: seq<string>, last: string)
    requires c.lineBreak(nl) && Unbroken(c, last) && forall i :: 0 <= i < |lines| ==> Unbroken(c, lines[i])
    ensures SplitLines(c, Unlines(nl, lines) + last) == lines + if last == "" then [] else [last]
  {
    if lines == [] {
      assert Unlines(nl, lines) + last == last;
      if last != "" {
        OneLine(c, last);
      }
    } else {
      var rest := Unlines(nl, lines[1..]) + last;
      assert Unlines(nl, lines) + last == lines[0] + ([nl] + rest);
      SplitsFirst(c, lines[0], nl, rest);
      SplitUndoesLines(c, nl, lines[1..], last);
      assert lines == [lines[0]] + lines[1..];
    }
  }

  lemma CutIsPrefix(s: string, n: nat)
    ensures Truncate(s, n) <= s
  {
  }

  lemma TailIsIn(s: string, n: nat)
    requires n <= |s|
    ensures Contains(s, s[n..])
  {
    assert s[n..] <= s[n..];
  }

  lemma {:induction false} LinesAreInText(c: Charset, s: string, line: string)
    requires line in SplitLines(c, s)
    ensures Contains(s, line)
    decreases |s|
  {
    var n := LineLength(c, s);
    if line == s[..n] {
      assert line <= s[0..];
    } else {
      LinesAreInText(c, s[n + 1..], line);
      TailIsIn(s, n + 1);
      ContainsTransitive(s, s[n + 1..], line);
    }
  }
}
