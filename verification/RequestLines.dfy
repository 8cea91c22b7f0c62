/** What one line of a message comes to, told from the line alone. */
module RequestLines {
  import opened Wrappers
  import opened Text
  import opened Classification

  /** Blanks and the marks of lists. */
  predicate Padding(s: string) {
    forall i :: 0 <= i < |s| ==> s[i] == ' ' || s[i] == '\t' || s[i] == '-' || s[i] == '*' || s[i] == '\U{2022}'
  }

  predicate NoPaddingAtEnds(s: string) {
    s != "" && !Padding([s[0]]) && !Padding([s[|s| - 1]])
  }

  /** The line between its padding is what is read. */
  lemma PaddingIsDropped(c: Charset, p: Patterns, u: string, line: string, v: string)
    requires Padding(u) && Padding(v) && NoPaddingAtEnds(line)
    ensures Strip(LineNoise, u + line + v) == line
    ensures ReadLine(c, p, u + line + v) == ReadStripped(c, p, u + line + v, line)
  {
    assert [line[0]][0] == line[0] && [line[|line| - 1]][0] == line[|line| - 1];
    StripUndoesPadding(LineNoise, u, line, v);
  }

  /** After white space the raw line starts with a mark of lists, and it has two words. */
  ghost predicate Bulleted(c: Charset, raw: string, line: string) {
    && |Words(c, line)| >= 2
    && exists k :: 0 <= k < |raw| && BulletAt(c, raw, k)
  }

  predicate BulletAt(c: Charset, raw: string, k: int)
    requires 0 <= k < |raw|
  {
    (raw[k] == '-' || raw[k] == '*' || raw[k] == '\U{2022}') && !c.space(raw[k]) && forall i :: 0 <= i < k ==> c.space(raw[i])
  }

  lemma {:induction false} StartIsFirst(c: Charset, raw: string) returns (k: nat)
    ensures k <= |raw| && StripLeft(c.space, raw) == raw[k..]
    ensures forall i :: 0 <= i < k ==> c.space(raw[i])
    ensures k < |raw| ==> !c.space(raw[k])
  {
    k := 0;
    if raw != "" && c.space(raw[0]) {
      var rest := StartIsFirst(c, raw[1..]);
      k := rest + 1;
      assert raw[1..][rest..] == raw[k..];
    }
  }

  lemma BulletedExactly(c: Charset, raw: string, line: string)
    ensures var start := StripLeft(c.space, raw);
            start != "" && Bullet(start[0]) && |Words(c, line)| >= 2 <==> Bulleted(c, raw, line)
  {
    var k := StartIsFirst(c, raw);
    if k < |raw| {
      forall j | 0 <= j < |raw| && BulletAt(c, raw, j) ensures j == k {
      }
      assert Bullet(raw[k]) ==> BulletAt(c, raw, k);
    }
  }

  /** A line asks for something if it is not an introduction, a deadline or a closing, and is either a
      recognised phrase or a bullet. */
  ghost predicate Asks(c: Charset, p: Patterns, raw: string, line: string) {
    && |line| >= 4 && !p.intro(line) && !p.deadline(line)
    && Casefold(c, line) != "thank you" && Casefold(c, line) != "thanks"
    && Casefold(c, line) != "sincerely" && Casefold(c, line) != "regards"
    && (p.explicit(line).Some? || Bulleted(c, raw, line))
  }

  lemma PassedOverExactly(c: Charset, p: Patterns, raw: string, line: string)
    requires |line| >= 4
    ensures PassedOver(c, p, raw, line) <==> !Asks(c, p, raw, line)
  {
    BulletedExactly(c, raw, line);
  }

  lemma JudgedAs(passed: bool, p: Patterns, item: string, line: string)
    ensures JudgeLine(passed, p, item, line).Skipped? <==> |line| < 4 || passed
    ensures JudgeLine(passed, p, item, line).Rejected? <==> |line| >= 4 && !passed && |item| < 2
    ensures JudgeLine(passed, p, item, line).Extracted? ==>
              var r := JudgeLine(passed, p, item, line).request;
              && r.item <= item && |r.item| == Min(|item|, 500) && r.category == p.category(item) && r.required
              && r.evidenceQuote <= line && |r.evidenceQuote| == Min(|line|, 1000)
  {
    CutIsPrefix(item, 500);
    CutIsPrefix(line, 1000);
  }

  /** Every line is skipped, refused or a request exactly as it asks, and a request carries the first 500
      characters of what is asked for, its category, and the first 1000 of the line. */
  lemma LineReadsExactly(c: Charset, p: Patterns, raw: string, line: string)
    ensures var item := Item(c, p, line);
            && (ReadStripped(c, p, raw, line).Skipped? <==> !Asks(c, p, raw, line))
            && (ReadStripped(c, p, raw, line).Rejected? <==> Asks(c, p, raw, line) && |item| < 2)
            && (ReadStripped(c, p, raw, line).Extracted? ==>
                  var r := ReadStripped(c, p, raw, line).request;
                  && r.item <= item && |r.item| == Min(|item|, 500) && r.category == p.category(item) && r.required
                  && r.evidenceQuote <= line && |r.evidenceQuote| == Min(|line|, 1000))
  {
    if |line| >= 4 {
      PassedOverExactly(c, p, raw, line);
    }
    JudgedAs(PassedOver(c, p, raw, line), p, Item(c, p, line), line);
  }

  /** What is asked for is the phrase captured, or the line, without white space around it and full stops
      after it. */
  lemma ItemReads(c: Charset, p: Patterns, line: string, u: string, core: string, dots: string, v: string)
    requires (if p.explicit(line).Some? then p.explicit(line).value else line) == u + (core + dots) + v
    requires AllDropped(c.space, u) && AllDropped(c.space, v) && forall i :: 0 <= i < |dots| ==> dots[i] == '.'
    requires core != "" && !c.space(core[0]) && !c.space('.') && !c.space(core[|core| - 1]) && core[|core| - 1] != '.'
    ensures Item(c, p, line) == core
  {
    var t := core + dots;
    assert t[|t| - 1] == if dots == "" then core[|core| - 1] else dots[|dots| - 1];
    StripUndoesPadding(c.space, u, t, v);
    StripRightPadding(FullStop, core, dots);
  }
}
