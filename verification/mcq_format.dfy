/** The reply format the prompt of `generateMCQ` asks for, written out, and
    the proof that the parser reads every question written in it back:
      1: What is AI?
         a) A fruit
         ...
      Answer: b) A technology
    followed by a blank line. */
module McqFormat {
  import opened Wrappers
  import opened Strings
  import opened Regex
  import opened Search
  import opened Layout
  import opened McqParser

  /** One option line: a newline, three spaces of indent, the label, ") "
      and the text. */
  function OptionLine(c: Choice): string {
    "\n   " + c.letter + ") " + c.text
  }

  /** The option lines of `os`, then the answer line. */
  function BodyText(os: seq<Choice>, answer: string): string
    decreases |os|
  {
    if |os| == 0 then "\nAnswer: " + answer + "\n"
    else OptionLine(os[0]) + BodyText(os[1..], answer)
  }

  /** Question `m` numbered `n`, in the prompt's format. */
  function McqText(n: nat, m: Mcq): string {
    ToDecimal(n) + ": " + m.question + BodyText(m.options, m.answer)
  }

  /** The questions `ms`, numbered from `n`, each followed by a blank line. */
  function RenderMcq(ms: seq<Mcq>, n: nat): string
    decreases |ms|
  {
    if |ms| == 0 then "" else McqText(n, ms[0]) + "\n" + RenderMcq(ms[1..], n + 1)
  }

  /** A record that can be written in the format and read back: shaped, and
      no field spans a line. */
  predicate Renderable(m: Mcq) {
    && Shaped(m)
    && '\n' !in m.question && '\n' !in m.answer
    && (forall k :: 0 <= k < |m.options| ==> '\n' !in m.options[k].text)
  }

  // ----- one option line -----

  /** The option line for label `l` and text `t` is read by `Opt(l)` piece
      by piece: the indent stops at the label, the text at the newline that
      starts the next line. */
  lemma LemmaOptMatch(l: char, c: Choice, next: Pattern, s: string, i: nat, h: Hit) returns (sp: seq<Span>)
    requires c.letter == [l] && !IsSpace(l) && '\n' !in c.text
    requires |next| > 0 && next[0].Lit? && |next[0].lit| > 0 && next[0].lit[0] == '\n'
    requires var w := OptionLine(c); i + |w| <= |s| && s[i..i + |w|] == w
    requires Match(next, s, i + |OptionLine(c)|) == Some(h)
    ensures sp == [Span(i + 1, i + 4), Span(i + 7, i + 7 + |c.text|)] + h.spans
    ensures Match(Opt(l) + next, s, i) == Some(Hit(h.end, sp))
  {
    var runs := SpansOf(Opt(l), ["\n", "   ", [l, ')', ' '], c.text], i);
    assert runs == [Span(i + 1, i + 4), Span(i + 7, i + 7 + |c.text|)] by {
      LemmaOptSpans(l, c.text, i);
    }
    assert Match(Opt(l) + next, s, i) == Some(Hit(h.end, runs + h.spans)) by {
      LemmaOptHit(l, c, next, s, i, h);
    }
    sp := runs + h.spans;
  }

  /** `Opt(l)` followed by `next` matches the option line, each item taking
      its piece. */
  lemma LemmaOptHit(l: char, c: Choice, next: Pattern, s: string, i: nat, h: Hit)
    requires c.letter == [l] && !IsSpace(l) && '\n' !in c.text
    requires |next| > 0 && next[0].Lit? && |next[0].lit| > 0 && next[0].lit[0] == '\n'
    requires var w := OptionLine(c); i + |w| <= |s| && s[i..i + |w|] == w
    requires Match(next, s, i + |OptionLine(c)|) == Some(h)
    ensures Match(Opt(l) + next, s, i)
      == Some(Hit(h.end, SpansOf(Opt(l), ["\n", "   ", [l, ')', ' '], c.text], i) + h.spans))
  {
    var pieces := ["\n", "   ", [l, ')', ' '], c.text];
    LemmaOptPieces(l, c);
    LemmaOptFits(l, c, next, s, i);
    LemmaFirstChoice(Opt(l), pieces, next, s, i, h);
  }

  /** Each item of `Opt(l)` takes its piece of the option line first. */
  lemma LemmaOptFits(l: char, c: Choice, next: Pattern, s: string, i: nat)
    requires c.letter == [l] && !IsSpace(l) && '\n' !in c.text
    requires |next| > 0 && next[0].Lit? && |next[0].lit| > 0 && next[0].lit[0] == '\n'
    requires var w := OptionLine(c); i + |w| <= |s| && s[i..i + |w|] == w
    ensures Fits(Opt(l), ["\n", "   ", [l, ')', ' '], c.text], next, s, i)
  {
    var t := c.text;
    var pieces := ["\n", "   ", [l, ')', ' '], t];
    var w := OptionLine(c);
    var p := Opt(l);
    assert s[i + 4] == l by {
      assert s[i..i + |w|][4] == w[4];
    }
    assert p[1..][1..] == p[2..] && p[2..][1..] == p[3..] && p[3..][1..] == [];
    assert StopsBefore(next[0], t);
    assert Fits(p[3..], pieces[3..], next, s, i + 7) by {
      assert p[3..][1..] + next == next;
    }
    assert Fits(p[2..], pieces[2..], next, s, i + 4);
    assert Fits(p[1..], pieces[1..], next, s, i + 1);
  }

  /** The two runs of `Opt(l)` cover the indent and the option text. */
  lemma LemmaOptSpans(l: char, t: string, i: nat)
    ensures SpansOf(Opt(l), ["\n", "   ", [l, ')', ' '], t], i)
      == [Span(i + 1, i + 4), Span(i + 7, i + 7 + |t|)]
  {
    var pieces := ["\n", "   ", [l, ')', ' '], t];
    var p := Opt(l);
    assert p[1..][1..] == p[2..] && p[2..][1..] == p[3..] && p[3..][1..] == [];
    assert pieces[1..][1..] == pieces[2..] && pieces[2..][1..] == pieces[3..];
    assert SpansOf(p[3..], pieces[3..], i + 7) == [Span(i + 7, i + 7 + |t|)];
    assert SpansOf(p[2..], pieces[2..], i + 4) == [Span(i + 7, i + 7 + |t|)];
    assert SpansOf(p[1..], pieces[1..], i + 1) == [Span(i + 1, i + 4), Span(i + 7, i + 7 + |t|)];
  }

  /** The four pieces `Opt(l)` takes, joined, spell the option line. */
  lemma LemmaOptPieces(l: char, c: Choice)
    requires c.letter == [l]
    ensures Concat(["\n", "   ", [l, ')', ' '], c.text]) == OptionLine(c)
  {
    var t := c.text;
    var pieces := ["\n", "   ", [l, ')', ' '], t];
    assert pieces[3..][1..] == [];
    assert pieces[1..][1..] == pieces[2..] && pieces[2..][1..] == pieces[3..];
    assert Concat(pieces[3..]) == t;
    assert Concat(pieces[2..]) == [l, ')', ' '] + t;
    assert Concat(pieces[1..]) == "   " + ([l, ')', ' '] + t);
    assert Concat(pieces) == "\n" + ("   " + ([l, ')', ' '] + t));
    assert OptionLine(c) == "\n" + ("   " + ([l, ')', ' '] + t));
  }

  // ----- the answer line -----

  /** The answer line is read by `Tail`: its run covers exactly the answer. */
  lemma LemmaTailMatch(ans: string, s: string, i: nat)
    requires '\n' !in ans
    requires var w := "\nAnswer: " + ans + "\n"; i + |w| <= |s| && s[i..i + |w|] == w
    ensures Match(Tail, s, i) == Some(Hit(i + 10 + |ans|, [Span(i + 9, i + 9 + |ans|)]))
  {
    var pieces := ["\nAnswer: ", ans, "\n"];
    LemmaTailPieces(ans);
    LemmaTailFits(ans, s, i);
    LemmaFirstChoice(Tail, pieces, [], s, i, Hit(i + 10 + |ans|, []));
    assert Tail + [] == Tail;
    LemmaTailSpans(ans, i);
    assert [Span(i + 9, i + 9 + |ans|)] + [] == [Span(i + 9, i + 9 + |ans|)];
  }

  lemma LemmaTailPieces(ans: string)
    ensures Concat(["\nAnswer: ", ans, "\n"]) == "\nAnswer: " + ans + "\n"
  {
    var pieces := ["\nAnswer: ", ans, "\n"];
    assert pieces[1..][1..] == pieces[2..] && pieces[2..][1..] == [];
    assert Concat(pieces[2..]) == "\n";
    assert Concat(pieces[1..]) == ans + "\n";
  }

  lemma LemmaTailFits(ans: string, s: string, i: nat)
    requires '\n' !in ans
    requires var w := "\nAnswer: " + ans + "\n"; i + |w| <= |s| && s[i..i + |w|] == w
    ensures Fits(Tail, ["\nAnswer: ", ans, "\n"], [], s, i)
  {
    var pieces := ["\nAnswer: ", ans, "\n"];
    var p := Tail;
    assert p[1..][1..] == p[2..] && p[2..][1..] == [];
    assert p[1..][1..] + [] == p[2..];
    assert StopsBefore(p[2], ans);
    assert Fits(p[2..], pieces[2..], [], s, i + 9 + |ans|);
    assert Fits(p[1..], pieces[1..], [], s, i + 9);
  }

  lemma LemmaTailSpans(ans: string, i: nat)
    ensures SpansOf(Tail, ["\nAnswer: ", ans, "\n"], i) == [Span(i + 9, i + 9 + |ans|)]
  {
    var pieces := ["\nAnswer: ", ans, "\n"];
    var p := Tail;
    assert p[1..][1..] == p[2..] && p[2..][1..] == [];
    assert pieces[1..][1..] == pieces[2..] && pieces[2..][1..] == [];
    assert SpansOf(p[2..], pieces[2..], i + 9 + |ans|) == [];
    assert SpansOf(p[1..], pieces[1..], i + 9) == [Span(i + 9, i + 9 + |ans|)];
  }

  // ----- the option lines and the answer line -----

  /** Spans `sp` read the option texts of `os` from the odd positions and
      the answer from the last. */
  predicate BodyRead(s: string, os: seq<Choice>, ans: string, sp: seq<Span>) {
    && |sp| == 2 * |os| + 1 && SpansIn(s, sp)
    && (forall j :: 0 <= j < |os| ==> Capture(s, sp[2 * j + 1]) == os[j].text)
    && Capture(s, sp[2 * |os|]) == ans
  }

  /** Options that `Body(ls)` can read: labelled by `ls`, with labels that
      are not whitespace and texts on one line. */
  predicate OptionsFor(os: seq<Choice>, ls: string) {
    && |os| == |ls|
    && (forall k :: 0 <= k < |os| ==> os[k].letter == [ls[k]] && !IsSpace(ls[k]))
    && (forall k :: 0 <= k < |os| ==> '\n' !in os[k].text)
  }

  /** Every suffix of the option lines and answer line starts with a newline. */
  lemma LemmaBodyStart(ls: string)
    ensures |Body(ls)| > 0 && Body(ls)[0].Lit? && |Body(ls)[0].lit| > 0 && Body(ls)[0].lit[0] == '\n'
  {
    if |ls| > 0 {
      assert Body(ls)[0] == Opt(ls[0])[0];
    }
  }

  /** The option lines and answer line, in the format, are read back by
      `Body(ls)`: option texts from the odd runs, the answer from the last. */
  lemma {:induction false} LemmaBodyMatch(os: seq<Choice>, ls: string, ans: string, s: string, i: nat)
      returns (e: nat, sp: seq<Span>)
    requires OptionsFor(os, ls) && '\n' !in ans
    requires var w := BodyText(os, ans); i + |w| <= |s| && s[i..i + |w|] == w
    ensures e == i + |BodyText(os, ans)|
    ensures Match(Body(ls), s, i) == Some(Hit(e, sp))
    ensures BodyRead(s, os, ans, sp)
    decreases |os|, 1
  {
    if |os| == 0 {
      e, sp := LemmaBodyEnd(os, ls, ans, s, i);
    } else {
      e, sp := LemmaBodyMatchCons(os, ls, ans, s, i);
    }
  }

  /** The same with at least one option line: that line, then the rest. */
  lemma {:induction false} LemmaBodyMatchCons(os: seq<Choice>, ls: string, ans: string, s: string, i: nat)
      returns (e: nat, sp: seq<Span>)
    requires |os| > 0 && OptionsFor(os, ls) && '\n' !in ans
    requires var w := BodyText(os, ans); i + |w| <= |s| && s[i..i + |w|] == w
    ensures e == i + |BodyText(os, ans)|
    ensures Match(Body(ls), s, i) == Some(Hit(e, sp))
    ensures BodyRead(s, os, ans, sp)
    decreases |os|, 0
  {
    LemmaBodySplit(os, ls, ans, s, i);
    var j := i + |OptionLine(os[0])|;
    var e1, sp1 := LemmaBodyMatch(os[1..], ls[1..], ans, s, j);
    e := e1;
    sp := LemmaBodyStep(os, ls, ans, s, i, j, Hit(e1, sp1));
  }

  /** The first option line, then the rest of the lines. */
  lemma LemmaBodySplit(os: seq<Choice>, ls: string, ans: string, s: string, i: nat)
    requires |os| > 0 && OptionsFor(os, ls)
    requires var w := BodyText(os, ans); i + |w| <= |s| && s[i..i + |w|] == w
    ensures OptionsFor(os[1..], ls[1..])
    ensures |BodyText(os, ans)| == |OptionLine(os[0])| + |BodyText(os[1..], ans)|
    ensures var o := OptionLine(os[0]); i + |o| <= |s| && s[i..i + |o|] == o
    ensures var j := i + |OptionLine(os[0])|; var rest := BodyText(os[1..], ans);
      j + |rest| <= |s| && s[j..j + |rest|] == rest
  {
    var o := OptionLine(os[0]);
    var rest := BodyText(os[1..], ans);
    assert BodyText(os, ans) == o + rest;
    LemmaSplitAt(s, i, o, rest);
  }

  /** The first option line in front of a read of the remaining lines. */
  lemma LemmaBodyStep(os: seq<Choice>, ls: string, ans: string, s: string, i: nat, j: nat, h: Hit)
      returns (sp: seq<Span>)
    requires |os| > 0 && OptionsFor(os, ls)
    requires var o := OptionLine(os[0]); i + |o| <= |s| && s[i..i + |o|] == o
    requires j == i + |OptionLine(os[0])| && Match(Body(ls[1..]), s, j) == Some(h)
    requires BodyRead(s, os[1..], ans, h.spans)
    ensures Match(Body(ls), s, i) == Some(Hit(h.end, sp))
    ensures BodyRead(s, os, ans, sp)
  {
    var c := os[0];
    var o := OptionLine(c);
    assert c.letter == [ls[0]] && !IsSpace(ls[0]) && '\n' !in c.text;
    sp := LemmaBodyCons(c, ls, s, i, h);
    LemmaOptionLine(c, ls[0]);
    LemmaSliceAt(s, i, o, 7, 7 + |c.text|);
    LemmaBodyReadCons(s, os, ans, Span(i + 1, i + 4), Span(i + 7, i + 7 + |c.text|), h.spans, sp);
  }

  /** An option line in front of a match of the remaining lines. */
  lemma LemmaBodyCons(c: Choice, ls: string, s: string, i: nat, h: Hit) returns (sp: seq<Span>)
    requires |ls| > 0 && c.letter == [ls[0]] && !IsSpace(ls[0]) && '\n' !in c.text
    requires var w := OptionLine(c); i + |w| <= |s| && s[i..i + |w|] == w
    requires Match(Body(ls[1..]), s, i + |OptionLine(c)|) == Some(h)
    ensures sp == [Span(i + 1, i + 4), Span(i + 7, i + 7 + |c.text|)] + h.spans
    ensures Match(Body(ls), s, i) == Some(Hit(h.end, sp))
  {
    LemmaBodyStart(ls[1..]);
    sp := LemmaOptMatch(ls[0], c, Body(ls[1..]), s, i, h);
    assert Body(ls) == Opt(ls[0]) + Body(ls[1..]);
  }

  /** With no options left, the answer line alone is read. */
  lemma LemmaBodyEnd(os: seq<Choice>, ls: string, ans: string, s: string, i: nat)
      returns (e: nat, sp: seq<Span>)
    requires |os| == 0 && OptionsFor(os, ls) && '\n' !in ans
    requires var w := BodyText(os, ans); i + |w| <= |s| && s[i..i + |w|] == w
    ensures e == i + |BodyText(os, ans)|
    ensures Match(Body(ls), s, i) == Some(Hit(e, sp))
    ensures BodyRead(s, os, ans, sp)
  {
    assert Body(ls) == Tail;
    LemmaAnswerRead(os, ans, s, i);
    e, sp := i + |BodyText(os, ans)|, [Span(i + 9, i + 9 + |ans|)];
  }

  lemma LemmaAnswerRead(os: seq<Choice>, ans: string, s: string, i: nat)
    requires |os| == 0 && '\n' !in ans
    requires var w := BodyText(os, ans); i + |w| <= |s| && s[i..i + |w|] == w
    ensures Match(Tail, s, i) == Some(Hit(i + |BodyText(os, ans)|, [Span(i + 9, i + 9 + |ans|)]))
    ensures BodyRead(s, os, ans, [Span(i + 9, i + 9 + |ans|)])
  {
    var w := BodyText(os, ans);
    LemmaTailMatch(ans, s, i);
    LemmaSliceAt(s, i, w, 9, 9 + |ans|);
    assert w[9..9 + |ans|] == ans;
  }

  /** An option line with a one-letter label: seven characters, then the text. */
  lemma LemmaOptionLine(c: Choice, l: char)
    requires c.letter == [l]
    ensures c == Choice([l], c.text)
    ensures |OptionLine(c)| == 7 + |c.text| && OptionLine(c)[7..7 + |c.text|] == c.text
  {
  }

  /** Two spans in front of a read of the remaining option lines, the second
      holding the first option's text, read all of them. */
  lemma LemmaBodyReadCons(s: string, os: seq<Choice>, ans: string, a: Span, b: Span, rest: seq<Span>,
      sp: seq<Span>)
    requires |os| > 0 && BodyRead(s, os[1..], ans, rest)
    requires a.lo <= a.hi <= |s| && b.lo <= b.hi <= |s| && Capture(s, b) == os[0].text
    requires sp == [a, b] + rest
    ensures BodyRead(s, os, ans, sp)
  {
    forall j | 0 <= j < |os|
      ensures Capture(s, sp[2 * j + 1]) == os[j].text
    {
      if j > 0 {
        assert sp[2 * j + 1] == rest[2 * (j - 1) + 1];
        assert os[j] == os[1..][j - 1];
      }
    }
    assert sp[2 * |os|] == rest[2 * |os[1..]|];
  }

  // ----- the question line -----

  /** The question line is read by `Head` in front of `next`: the number
      run stops at the colon, the question at the newline that starts the
      next line. */
  lemma LemmaHeadMatch(d: string, q: string, next: Pattern, s: string, i: nat, h: Hit)
    requires |d| > 0 && AllDigits(d) && '\n' !in q
    requires |next| > 0 && next[0].Lit? && |next[0].lit| > 0 && next[0].lit[0] == '\n'
    requires var w := d + ": " + q; i + |w| <= |s| && s[i..i + |w|] == w
    requires Match(next, s, i + |d| + 2 + |q|) == Some(h)
    ensures Match(Head + next, s, i)
      == Some(Hit(h.end, [Span(i, i + |d|), Span(i + |d| + 2, i + |d| + 2 + |q|)] + h.spans))
  {
    var runs := SpansOf(Head, [d, ": ", q], i);
    assert runs == [Span(i, i + |d|), Span(i + |d| + 2, i + |d| + 2 + |q|)] by {
      LemmaHeadSpans(d, q, i);
    }
    assert Match(Head + next, s, i) == Some(Hit(h.end, runs + h.spans)) by {
      LemmaHeadLineHit(d, q, next, s, i, h);
    }
  }

  /** `Head` followed by `next` matches the question line, each item taking
      its piece. */
  lemma LemmaHeadLineHit(d: string, q: string, next: Pattern, s: string, i: nat, h: Hit)
    requires |d| > 0 && AllDigits(d) && '\n' !in q
    requires |next| > 0 && next[0].Lit? && |next[0].lit| > 0 && next[0].lit[0] == '\n'
    requires var w := d + ": " + q; i + |w| <= |s| && s[i..i + |w|] == w
    requires Match(next, s, i + |d| + 2 + |q|) == Some(h)
    ensures Match(Head + next, s, i) == Some(Hit(h.end, SpansOf(Head, [d, ": ", q], i) + h.spans))
  {
    LemmaHeadPieces(d, q);
    LemmaHeadFits(d, q, next, s, i);
    LemmaFirstChoice(Head, [d, ": ", q], next, s, i, h);
  }

  lemma LemmaHeadPieces(d: string, q: string)
    ensures Concat([d, ": ", q]) == d + ": " + q
  {
    var pieces := [d, ": ", q];
    assert pieces[1..][1..] == pieces[2..] && pieces[2..][1..] == [];
    assert Concat(pieces[2..]) == q;
    assert Concat(pieces[1..]) == ": " + q;
  }

  lemma LemmaHeadFits(d: string, q: string, next: Pattern, s: string, i: nat)
    requires |d| > 0 && AllDigits(d) && '\n' !in q
    requires |next| > 0 && next[0].Lit? && |next[0].lit| > 0 && next[0].lit[0] == '\n'
    requires var w := d + ": " + q; i + |w| <= |s| && s[i..i + |w|] == w
    ensures Fits(Head, [d, ": ", q], next, s, i)
  {
    var pieces := [d, ": ", q];
    var w := d + ": " + q;
    var p := Head;
    assert s[i + |d|] == ':' by {
      assert s[i..i + |w|][|d|] == w[|d|];
    }
    assert p[1..][1..] == p[2..] && p[2..][1..] == [];
    assert p[2..][1..] + next == next;
    assert StopsBefore(next[0], q);
    assert Fits(p[2..], pieces[2..], next, s, i + |d| + 2);
    assert Fits(p[1..], pieces[1..], next, s, i + |d|);
  }

  lemma LemmaHeadSpans(d: string, q: string, i: nat)
    ensures SpansOf(Head, [d, ": ", q], i)
      == [Span(i, i + |d|), Span(i + |d| + 2, i + |d| + 2 + |q|)]
  {
    var pieces := [d, ": ", q];
    var p := Head;
    assert p[1..][1..] == p[2..] && p[2..][1..] == [];
    assert pieces[1..][1..] == pieces[2..] && pieces[2..][1..] == [];
    assert SpansOf(p[2..], pieces[2..], i + |d| + 2) == [Span(i + |d| + 2, i + |d| + 2 + |q|)];
    assert SpansOf(p[1..], pieces[1..], i + |d|) == [Span(i + |d| + 2, i + |d| + 2 + |q|)];
  }

  // ----- one whole question -----

  /** Groups that capture exactly the fields of a shaped record rebuild it. */
  lemma LemmaRecordOfFields(s: string, g: seq<Span>, m: Mcq)
    requires |g| == 7 && forall k :: 0 <= k < 7 ==> g[k].lo <= g[k].hi <= |s|
    requires Shaped(m)
    requires Capture(s, g[1]) == m.question && Capture(s, g[6]) == m.answer
    requires forall j :: 0 <= j < 4 ==> Capture(s, g[j + 2]) == m.options[j].text
    ensures RecordOf(s, g) == m
  {
    var os := m.options;
    LemmaShapedRecord(m);
    LemmaStripStripped(m.question);
    LemmaStripStripped(m.answer);
    LemmaStripStripped(os[0].text);
    LemmaStripStripped(os[1].text);
    LemmaStripStripped(os[2].text);
    LemmaStripStripped(os[3].text);
    assert Capture(s, g[2]) == os[0].text && Capture(s, g[3]) == os[1].text;
    assert Capture(s, g[4]) == os[2].text && Capture(s, g[5]) == os[3].text;
  }

  /** Run spans that read the question from the second run and the options
      and answer as `BodyRead` says make `McqOf` rebuild the record. */
  lemma LemmaMcqOfRead(s: string, sp: seq<Span>, m: Mcq)
    requires |sp| == 11 && SpansIn(s, sp) && Shaped(m)
    requires Capture(s, sp[1]) == m.question
    requires BodyRead(s, m.options, m.answer, sp[2..])
    ensures McqOf(s, sp) == m
  {
    var g := McqGroupSpans(sp);
    forall j | 0 <= j < 4
      ensures Capture(s, g[j + 2]) == m.options[j].text
    {
      assert sp[2..][2 * j + 1] == sp[2 * j + 3];
      assert g[j + 2] == sp[2 * j + 3];
    }
    assert sp[2..][2 * |m.options|] == sp[10];
    LemmaRecordOfFields(s, g, m);
  }

  /** The option labels are not whitespace, so the options of a renderable
      record can be read by the body of the pattern. */
  lemma LemmaRenderableOptions(m: Mcq)
    requires Renderable(m)
    ensures OptionsFor(m.options, Labels)
  {
    assert Labels == ['a', 'b', 'c', 'd'];
  }

  /** A question written in the format is matched from its first digit to
      the newline after its answer, and the match rebuilds the record. */
  lemma LemmaMcqMatch(n: nat, m: Mcq, s: string, i: nat)
    requires Renderable(m)
    requires var w := McqText(n, m); i + |w| <= |s| && s[i..i + |w|] == w
    ensures Match(McqPattern, s, i).Some?
    ensures var h := Match(McqPattern, s, i).value;
      && h.end == i + |McqText(n, m)|
      && |h.spans| == 11 && SpansIn(s, h.spans) && McqOf(s, h.spans) == m
  {
    var sp := LemmaMcqHit(n, m, s, i);
    LemmaMcqOfRead(s, sp, m);
  }

  /** The run spans of that match: the number, the question, then the
      option lines and answer line as `BodyRead` says. */
  lemma LemmaMcqHit(n: nat, m: Mcq, s: string, i: nat) returns (sp: seq<Span>)
    requires Renderable(m)
    requires var w := McqText(n, m); i + |w| <= |s| && s[i..i + |w|] == w
    ensures Match(McqPattern, s, i) == Some(Hit(i + |McqText(n, m)|, sp))
    ensures |sp| == 11 && SpansIn(s, sp)
    ensures Capture(s, sp[1]) == m.question
    ensures BodyRead(s, m.options, m.answer, sp[2..])
  {
    LemmaRenderableOptions(m);
    sp := LemmaTextHit(Labels, n, m, s, i);
  }

  /** The same for any labels the options carry. */
  lemma LemmaTextHit(ls: string, n: nat, m: Mcq, s: string, i: nat) returns (sp: seq<Span>)
    requires OptionsFor(m.options, ls) && '\n' !in m.question && '\n' !in m.answer
    requires var w := McqText(n, m); i + |w| <= |s| && s[i..i + |w|] == w
    ensures Match(Head + Body(ls), s, i) == Some(Hit(i + |McqText(n, m)|, sp))
    ensures |sp| == 2 * |ls| + 3 && SpansIn(s, sp)
    ensures Capture(s, sp[1]) == m.question
    ensures BodyRead(s, m.options, m.answer, sp[2..])
  {
    var d := ToDecimal(n);
    var hd := d + ": " + m.question;
    var body := BodyText(m.options, m.answer);
    assert McqText(n, m) == hd + body;
    LemmaSplitAt(s, i, hd, body);
    var e;
    e, sp := LemmaLinesHit(ls, d, m.question, m.options, m.answer, s, i);
  }

  /** The question line `d: q` followed by the option lines and answer line. */
  lemma LemmaLinesHit(ls: string, d: string, q: string, os: seq<Choice>, ans: string, s: string, i: nat)
      returns (e: nat, sp: seq<Span>)
    requires OptionsFor(os, ls) && '\n' !in q && '\n' !in ans && |d| > 0 && AllDigits(d)
    requires var hd := d + ": " + q; i + |hd| <= |s| && s[i..i + |hd|] == hd
    requires var j := i + |d + ": " + q|; var body := BodyText(os, ans);
      j + |body| <= |s| && s[j..j + |body|] == body
    ensures e == i + |d + ": " + q| + |BodyText(os, ans)|
    ensures Match(Head + Body(ls), s, i) == Some(Hit(e, sp))
    ensures |sp| == 2 * |ls| + 3 && SpansIn(s, sp)
    ensures Capture(s, sp[1]) == q
    ensures BodyRead(s, os, ans, sp[2..])
  {
    var j := i + |d + ": " + q|;
    var e1, sp1 := LemmaBodyMatch(os, ls, ans, s, j);
    LemmaBodyStart(ls);
    e := e1;
    sp := LemmaHitFor(Body(ls), d, q, s, i, Hit(e1, sp1));
  }

  /** The question line in front of a match of `next`, which starts with a
      newline: the spans of the number and the question, then those of `next`. */
  lemma LemmaHitFor(next: Pattern, d: string, q: string, s: string, i: nat, h: Hit)
      returns (sp: seq<Span>)
    requires |d| > 0 && AllDigits(d) && '\n' !in q
    requires |next| > 0 && next[0].Lit? && |next[0].lit| > 0 && next[0].lit[0] == '\n'
    requires var hd := d + ": " + q; i + |hd| <= |s| && s[i..i + |hd|] == hd
    requires Match(next, s, i + |d + ": " + q|) == Some(h)
    requires SpansIn(s, h.spans)
    ensures Match(Head + next, s, i) == Some(Hit(h.end, sp))
    ensures |sp| == |h.spans| + 2 && SpansIn(s, sp)
    ensures Capture(s, sp[1]) == q
    ensures sp[2..] == h.spans
  {
    var hd := d + ": " + q;
    LemmaHeadMatch(d, q, next, s, i, h);
    LemmaSliceAt(s, i, hd, |d| + 2, |hd|);
    assert hd[|d| + 2..|hd|] == q;
    sp := [Span(i, i + |d|), Span(i + |d| + 2, i + |hd|)] + h.spans;
    LemmaSpansFront(s, Span(i, i + |d|), Span(i + |d| + 2, i + |hd|), h.spans, sp);
  }

  /** Two spans inside the text in front of spans inside the text. */
  lemma LemmaSpansFront(s: string, a: Span, b: Span, rest: seq<Span>, sp: seq<Span>)
    requires a.lo <= a.hi <= |s| && b.lo <= b.hi <= |s| && SpansIn(s, rest)
    requires sp == [a, b] + rest
    ensures |sp| == |rest| + 2 && SpansIn(s, sp) && sp[1] == b && sp[2..] == rest
  {
  }

  // ----- the whole reply -----

  /** The scan never starts a match at a newline: every match begins with
      a digit. */
  lemma LemmaNoMatchAtBreak(s: string, i: nat)
    requires i < |s| && s[i] == '\n'
    ensures Match(McqPattern, s, i).None?
  {
    if Match(McqPattern, s, i).Some? {
      assert McqPattern[0] == Run(Digit, 1, true, true);
      LemmaLeadRun(McqPattern, s, i);
    }
  }

  /** Nothing matches at the end of the text: every match is non-empty. */
  lemma LemmaNoMatchAtEnd(s: string)
    ensures Match(McqPattern, s, |s|).None?
  {
    LemmaMcqCounts();
  }

  /** One step of the scan over rendered questions: the first question is
      matched where it starts, the newline after it is skipped, and the scan
      carries on where the next question starts. */
  lemma LemmaScanStep(n: nat, m: Mcq, rest: string, s: string, i: nat) returns (f: Found)
    requires Renderable(m)
    requires i <= |s| && s[i..] == McqText(n, m) + "\n" + rest
    ensures MinWidth(McqPattern) > 0
    ensures f.end < |s| && s[f.end + 1..] == rest
    ensures |f.spans| == 11 && SpansIn(s, f.spans) && McqOf(s, f.spans) == m
    ensures FindAll(McqPattern, s, i) == [f] + FindAll(McqPattern, s, f.end + 1)
  {
    LemmaMcqCounts();
    var w := McqText(n, m);
    var e := i + |w|;
    assert e < |s| && s[e] == '\n' by {
      assert s[i..][|w|] == '\n';
    }
    assert s[i..e] == w by {
      assert s[i..][..|w|] == w;
    }
    assert s[e + 1..] == rest by {
      assert s[i..][|w| + 1..] == rest;
    }
    LemmaMcqMatch(n, m, s, i);
    var h := Match(McqPattern, s, i).value;
    f := Found(i, e, h.spans);
    LemmaNoMatchAtBreak(s, e);
  }

  /** Scanning rendered questions from where they start reports one hit
      per question, and each hit rebuilds its question. */
  lemma {:induction false} LemmaScanRender(ms: seq<Mcq>, n: nat, s: string, i: nat)
    requires forall k :: 0 <= k < |ms| ==> Renderable(ms[k])
    requires i <= |s| && s[i..] == RenderMcq(ms, n)
    ensures MinWidth(McqPattern) > 0
    ensures Hits(s, FindAll(McqPattern, s, i))
    ensures Records(s, FindAll(McqPattern, s, i)) == ms
    decreases |ms|, 1
  {
    LemmaMcqCounts();
    if |ms| == 0 {
      assert i == |s|;
      LemmaNoMatchAtEnd(s);
    } else {
      LemmaScanRenderCons(ms, n, s, i);
    }
  }

  /** The same for at least one question: its hit, then the rest's hits. */
  lemma {:induction false} LemmaScanRenderCons(ms: seq<Mcq>, n: nat, s: string, i: nat)
    requires |ms| > 0 && forall k :: 0 <= k < |ms| ==> Renderable(ms[k])
    requires i <= |s| && s[i..] == RenderMcq(ms, n)
    ensures MinWidth(McqPattern) > 0
    ensures Hits(s, FindAll(McqPattern, s, i))
    ensures Records(s, FindAll(McqPattern, s, i)) == ms
    decreases |ms|, 0
  {
    LemmaMcqCounts();
    var f := LemmaScanStep(n, ms[0], RenderMcq(ms[1..], n + 1), s, i);
    LemmaRenderableTail(ms);
    LemmaScanRender(ms[1..], n + 1, s, f.end + 1);
    LemmaScanCons(s, f, FindAll(McqPattern, s, f.end + 1), ms);
  }

  lemma LemmaRenderableTail(ms: seq<Mcq>)
    requires |ms| > 0 && forall k :: 0 <= k < |ms| ==> Renderable(ms[k])
    ensures forall k :: 0 <= k < |ms[1..]| ==> Renderable(ms[1..][k])
  {
  }

  /** Putting the first question's hit in front of the rest's. */
  lemma LemmaScanCons(s: string, f: Found, fs: seq<Found>, ms: seq<Mcq>)
    requires |ms| > 0
    requires |f.spans| == 11 && SpansIn(s, f.spans) && McqOf(s, f.spans) == ms[0]
    requires Hits(s, fs) && Records(s, fs) == ms[1..]
    ensures Hits(s, [f] + fs) && Records(s, [f] + fs) == ms
  {
    LemmaRecordsCons(s, f, fs);
    assert ms == [ms[0]] + ms[1..];
  }

  /** Questions written in the prompt's format, numbered from 1, are read
      back exactly by the parser. */
  lemma LemmaMcqRoundTrip(ms: seq<Mcq>)
    requires forall k :: 0 <= k < |ms| ==> Renderable(ms[k])
    ensures ParseMcq(RenderMcq(ms, 1)) == ms
  {
    var s := RenderMcq(ms, 1);
    assert s[0..] == s;
    LemmaScanRender(ms, 1, s, 0);
  }

  /** So `generateMCQ` returns exactly those questions for such a reply,
      unless there are none, when the reply is empty and it fails. */
  lemma LemmaGenerateMcqRoundTrip(ms: seq<Mcq>)
    requires forall k :: 0 <= k < |ms| ==> Renderable(ms[k])
    ensures |ms| > 0 ==> GenerateMcq(Some(RenderMcq(ms, 1))) == Produced(ms)
    ensures |ms| == 0 ==> GenerateMcq(Some(RenderMcq(ms, 1))) == Failed(McqFailure)
  {
    var s := RenderMcq(ms, 1);
    LemmaMcqRoundTrip(ms);
    if |ms| == 0 {
      assert s == "";
    } else {
      assert s == McqText(1, ms[0]) + "\n" + RenderMcq(ms[1..], 2);
      assert s != "";
      assert GenerateMcq(Some(s)) == Produced(ParseMcq(s));
    }
  }
}
