/** The reply format the open-ended prompt asks the model for, and the proof
    that `generateOpenEnded` reads a reply in that format back into exactly
    the questions it was written from. */
module OpenFormat {
  import opened Wrappers
  import opened Strings
  import opened Regex
  import opened Search
  import opened Layout
  import opened OpenParser

  // ----- the format -----

  /** The question line: the number, a full stop, a space and the question. */
  function QuestionText(d: string, q: string): string {
    d + ". " + q
  }

  /** The answer line: the marker, a space and the answer, on the line after
      the question. */
  function AnswerText(a: string): string {
    "\n" + Mark + " " + a + "\n"
  }

  /** One question written as the prompt's example shows it. */
  function OpenText(q: OpenQuestion): string {
    QuestionText(ToDecimal(q.number), q.question) + AnswerText(q.answer)
  }

  /** The questions `qs`, each followed by a blank line. */
  function RenderOpen(qs: seq<OpenQuestion>): string
    decreases |qs|
  {
    if |qs| == 0 then "" else OpenText(qs[0]) + "\n" + RenderOpen(qs[1..])
  }

  /** A record that can be written in the format and read back: question
      and answer stripped, not empty, and on one line each. */
  predicate Renderable(q: OpenQuestion) {
    && Stripped(q.question) && |q.question| > 0 && '\n' !in q.question
    && Stripped(q.answer) && |q.answer| > 0 && '\n' !in q.answer
  }

  /** Every record of `qs` is renderable. */
  predicate AllRenderable(qs: seq<OpenQuestion>)
    decreases |qs|
  {
    |qs| == 0 || (Renderable(qs[0]) && AllRenderable(qs[1..]))
  }

  // ----- the answer line -----

  /** The marker starts with a character that is not whitespace. */
  lemma LemmaMarkStart()
    ensures |Mark| == 9 && !IsSpace(Mark[0]) && Mark[0] != '\n'
  {
  }

  /** The answer line is read piece by piece by a pattern with the items
      of `AnswerLine`: no whitespace before the marker, one space after it,
      then the answer up to the newline. */
  lemma LemmaAnswerMatchAt(q: Pattern, mark: string, a: string, s: string, t: nat)
    requires |q| == 6 && q[0] == Lit("\n") && q[1] == Blank && q[2] == Lit(mark)
    requires q[3] == Blank && q[4] == Text && q[5] == LineEnd
    requires |mark| == 9 && !IsSpace(mark[0])
    requires |a| > 0 && !IsSpace(a[0]) && '\n' !in a
    requires var w := "\n" + mark + " " + a + "\n"; t + |w| <= |s| && s[t..t + |w|] == w
    ensures Match(q, s, t) == Some(Hit(t + 12 + |a|,
      [Span(t + 1, t + 1), Span(t + 10, t + 11), Span(t + 11, t + 11 + |a|)]))
  {
    var sp := [Span(t + 1, t + 1), Span(t + 10, t + 11), Span(t + 11, t + 11 + |a|)];
    LemmaAnswerPieces(mark, a);
    LemmaAnswerFits(q, mark, a, s, t);
    LemmaFirstChoice(q, ["\n", "", mark, " ", a, "\n"], [], s, t, Hit(t + 12 + |a|, []));
    assert q + [] == q;
    LemmaAnswerSpans(q, mark, a, t);
    assert sp + [] == sp;
  }

  lemma LemmaAnswerPieces(mark: string, a: string)
    ensures Concat(["\n", "", mark, " ", a, "\n"]) == "\n" + mark + " " + a + "\n"
  {
    var pieces := ["\n", "", mark, " ", a, "\n"];
    assert pieces[1..][1..] == pieces[2..] && pieces[2..][1..] == pieces[3..];
    assert pieces[3..][1..] == pieces[4..] && pieces[4..][1..] == pieces[5..];
    assert pieces[5..][1..] == [];
    assert Concat(pieces[5..]) == "\n";
    assert Concat(pieces[4..]) == a + "\n";
    assert Concat(pieces[3..]) == " " + (a + "\n");
    assert Concat(pieces[2..]) == mark + (" " + (a + "\n"));
    assert Concat(pieces[1..]) == mark + (" " + (a + "\n"));
    assert "\n" + mark + " " + a + "\n" == "\n" + (mark + (" " + (a + "\n")));
  }

  /** Each item of a pattern laid out as the answer line takes its piece
      of the line first. */
  lemma LemmaAnswerFits(q: Pattern, mark: string, a: string, s: string, t: nat)
    requires |q| == 6 && q[0] == Lit("\n") && q[1] == Blank && q[2] == Lit(mark)
    requires q[3] == Blank && q[4] == Text && q[5] == LineEnd
    requires |mark| == 9 && !IsSpace(mark[0])
    requires |a| > 0 && !IsSpace(a[0]) && '\n' !in a
    requires var w := "\n" + mark + " " + a + "\n"; t + |w| <= |s| && s[t..t + |w|] == w
    ensures Fits(q, ["\n", "", mark, " ", a, "\n"], [], s, t)
  {
    var pieces := ["\n", "", mark, " ", a, "\n"];
    var w := "\n" + mark + " " + a + "\n";
    assert s[t + 1] == mark[0] by {
      assert s[t..t + |w|][1] == w[1];
    }
    assert s[t + 11] == a[0] by {
      assert s[t..t + |w|][11] == w[11];
    }
    assert q[1..][1..] == q[2..] && q[2..][1..] == q[3..] && q[3..][1..] == q[4..];
    assert q[4..][1..] == q[5..] && q[5..][1..] == [];
    assert q[4..][1..] + [] == [LineEnd];
    assert Fits(q[5..], pieces[5..], [], s, t + 11 + |a|);
    assert Fits(q[4..], pieces[4..], [], s, t + 11);
    assert Fits(q[3..], pieces[3..], [], s, t + 10);
    assert Fits(q[2..], pieces[2..], [], s, t + 1);
    assert Fits(q[1..], pieces[1..], [], s, t + 1);
  }

  lemma LemmaAnswerSpans(q: Pattern, mark: string, a: string, t: nat)
    requires |q| == 6 && q[0] == Lit("\n") && q[1] == Blank && q[2] == Lit(mark)
    requires q[3] == Blank && q[4] == Text && q[5] == LineEnd
    requires |mark| == 9
    ensures SpansOf(q, ["\n", "", mark, " ", a, "\n"], t)
      == [Span(t + 1, t + 1), Span(t + 10, t + 11), Span(t + 11, t + 11 + |a|)]
  {
    var pieces := ["\n", "", mark, " ", a, "\n"];
    assert q[1..][1..] == q[2..] && q[2..][1..] == q[3..] && q[3..][1..] == q[4..];
    assert q[4..][1..] == q[5..] && q[5..][1..] == [];
    assert pieces[1..][1..] == pieces[2..] && pieces[2..][1..] == pieces[3..];
    assert pieces[3..][1..] == pieces[4..] && pieces[4..][1..] == pieces[5..];
    assert SpansOf(q[5..], pieces[5..], t + 11 + |a|) == [];
    assert SpansOf(q[4..], pieces[4..], t + 11) == [Span(t + 11, t + 11 + |a|)];
    assert SpansOf(q[3..], pieces[3..], t + 10) == [Span(t + 10, t + 11), Span(t + 11, t + 11 + |a|)];
    assert SpansOf(q[2..], pieces[2..], t + 1) == [Span(t + 10, t + 11), Span(t + 11, t + 11 + |a|)];
    assert SpansOf(q[1..], pieces[1..], t + 1)
      == [Span(t + 1, t + 1), Span(t + 10, t + 11), Span(t + 11, t + 11 + |a|)];
  }

  // ----- the question line -----

  /** The question line is read by a pattern with the items of
      `QuestionLine`: the digit run stops at the full stop, the whitespace
      run takes the one space, and the lazy question run stops at the
      newline that starts the line read by `next`. */
  lemma LemmaQuestionMatchAt(p: Pattern, d: string, q: string, next: Pattern, s: string, i: nat, h: Hit)
    requires |p| == 4 && p[0] == Number && p[1] == Lit(".") && p[2] == Blank && p[3] == Text
    requires |d| > 0 && AllDigits(d)
    requires |q| > 0 && !IsSpace(q[0]) && '\n' !in q
    requires |next| > 0 && next[0].Lit? && |next[0].lit| > 0 && next[0].lit[0] == '\n'
    requires var w := d + ". " + q; i + |w| <= |s| && s[i..i + |w|] == w
    requires Match(next, s, i + |d| + 2 + |q|) == Some(h)
    ensures Match(p + next, s, i) == Some(Hit(h.end,
      [Span(i, i + |d|), Span(i + |d| + 1, i + |d| + 2), Span(i + |d| + 2, i + |d| + 2 + |q|)] + h.spans))
  {
    LemmaQuestionPieces(d, q);
    LemmaQuestionFits(p, d, q, next, s, i);
    LemmaFirstChoice(p, [d, ".", " ", q], next, s, i, h);
    LemmaQuestionSpans(p, d, q, i);
  }

  lemma LemmaQuestionPieces(d: string, q: string)
    ensures Concat([d, ".", " ", q]) == d + ". " + q
  {
    var pieces := [d, ".", " ", q];
    assert pieces[1..][1..] == pieces[2..] && pieces[2..][1..] == pieces[3..];
    assert pieces[3..][1..] == [];
    assert Concat(pieces[3..]) == q;
    assert Concat(pieces[2..]) == " " + q;
    assert Concat(pieces[1..]) == "." + (" " + q);
    assert d + ". " + q == d + ("." + (" " + q));
  }

  lemma LemmaQuestionFits(p: Pattern, d: string, q: string, next: Pattern, s: string, i: nat)
    requires |p| == 4 && p[0] == Number && p[1] == Lit(".") && p[2] == Blank && p[3] == Text
    requires |d| > 0 && AllDigits(d)
    requires |q| > 0 && !IsSpace(q[0]) && '\n' !in q
    requires |next| > 0 && next[0].Lit? && |next[0].lit| > 0 && next[0].lit[0] == '\n'
    requires var w := d + ". " + q; i + |w| <= |s| && s[i..i + |w|] == w
    ensures Fits(p, [d, ".", " ", q], next, s, i)
  {
    var pieces := [d, ".", " ", q];
    var w := d + ". " + q;
    assert s[i + |d|] == '.' by {
      assert s[i..i + |w|][|d|] == w[|d|];
    }
    assert s[i + |d| + 2] == q[0] by {
      assert s[i..i + |w|][|d| + 2] == w[|d| + 2];
    }
    assert p[1..][1..] == p[2..] && p[2..][1..] == p[3..] && p[3..][1..] == [];
    assert p[3..][1..] + next == next;
    assert StopsBefore(next[0], q);
    assert Fits(p[3..], pieces[3..], next, s, i + |d| + 2);
    assert Fits(p[2..], pieces[2..], next, s, i + |d| + 1);
    assert Fits(p[1..], pieces[1..], next, s, i + |d|);
  }

  lemma LemmaQuestionSpans(p: Pattern, d: string, q: string, i: nat)
    requires |p| == 4 && p[0] == Number && p[1] == Lit(".") && p[2] == Blank && p[3] == Text
    ensures SpansOf(p, [d, ".", " ", q], i)
      == [Span(i, i + |d|), Span(i + |d| + 1, i + |d| + 2), Span(i + |d| + 2, i + |d| + 2 + |q|)]
  {
    var pieces := [d, ".", " ", q];
    assert p[1..][1..] == p[2..] && p[2..][1..] == p[3..] && p[3..][1..] == [];
    assert pieces[1..][1..] == pieces[2..] && pieces[2..][1..] == pieces[3..];
    assert pieces[3..][1..] == [];
    assert SpansOf(p[3..], pieces[3..], i + |d| + 2) == [Span(i + |d| + 2, i + |d| + 2 + |q|)];
    assert SpansOf(p[2..], pieces[2..], i + |d| + 1)
      == [Span(i + |d| + 1, i + |d| + 2), Span(i + |d| + 2, i + |d| + 2 + |q|)];
    assert SpansOf(p[1..], pieces[1..], i + |d|)
      == [Span(i + |d| + 1, i + |d| + 2), Span(i + |d| + 2, i + |d| + 2 + |q|)];
  }

  // ----- one whole question -----

  /** A question written in the format is matched from its first digit to
      the newline after its answer, and the match rebuilds the record. */
  lemma LemmaOpenMatch(q: OpenQuestion, s: string, i: nat)
    requires Renderable(q)
    requires var w := OpenText(q); i + |w| <= |s| && s[i..i + |w|] == w
    ensures Match(OpenPattern, s, i).Some?
    ensures var h := Match(OpenPattern, s, i).value;
      && h.end == i + |OpenText(q)|
      && OpenSpans(s, h.spans) && OpenOf(s, h.spans) == q
  {
    var sp := LemmaOpenTextHit(q, s, i);
    LemmaOpenOfRead(s, sp, q);
  }

  /** The run spans of that match: the digits, the space, the question,
      the whitespace before the marker, the space after it, the answer. */
  lemma LemmaOpenTextHit(q: OpenQuestion, s: string, i: nat) returns (sp: seq<Span>)
    requires Renderable(q)
    requires var w := OpenText(q); i + |w| <= |s| && s[i..i + |w|] == w
    ensures Match(OpenPattern, s, i) == Some(Hit(i + |OpenText(q)|, sp))
    ensures |sp| == 6 && SpansIn(s, sp)
    ensures Capture(s, sp[0]) == ToDecimal(q.number)
    ensures Capture(s, sp[2]) == q.question && Capture(s, sp[5]) == q.answer
  {
    LemmaMarkStart();
    sp := LemmaTextHitAt(QuestionLine, AnswerLine, Mark, ToDecimal(q.number), q.question, q.answer, s, i);
  }

  /** The same for any pattern made of a question line and an answer line
      with the items of `QuestionLine` and `AnswerLine`. */
  lemma LemmaTextHitAt(p: Pattern, r: Pattern, mark: string, d: string, qn: string, a: string,
                       s: string, i: nat) returns (sp: seq<Span>)
    requires |p| == 4 && p[0] == Number && p[1] == Lit(".") && p[2] == Blank && p[3] == Text
    requires |r| == 6 && r[0] == Lit("\n") && r[1] == Blank && r[2] == Lit(mark)
    requires r[3] == Blank && r[4] == Text && r[5] == LineEnd
    requires |mark| == 9 && !IsSpace(mark[0])
    requires |d| > 0 && AllDigits(d)
    requires |qn| > 0 && !IsSpace(qn[0]) && '\n' !in qn
    requires |a| > 0 && !IsSpace(a[0]) && '\n' !in a
    requires var w := d + ". " + qn + ("\n" + mark + " " + a + "\n"); i + |w| <= |s| && s[i..i + |w|] == w
    ensures Match(p + r, s, i) == Some(Hit(i + |d + ". " + qn + ("\n" + mark + " " + a + "\n")|, sp))
    ensures |sp| == 6 && SpansIn(s, sp)
    ensures Capture(s, sp[0]) == d && Capture(s, sp[2]) == qn && Capture(s, sp[5]) == a
  {
    var qt := d + ". " + qn;
    var at := "\n" + mark + " " + a + "\n";
    LemmaSplitAt(s, i, qt, at);
    var h := LemmaAnswerHitFor(r, mark, a, s, i + |qt|);
    sp := LemmaQuestionHitFor(p, r, d, qn, s, i, h);
    assert sp[5] == h.spans[2];
  }

  /** The answer line read by a pattern with the items of `AnswerLine`:
      it ends after the newline that closes the line, and its last run
      captures the answer. */
  lemma LemmaAnswerHitFor(r: Pattern, mark: string, a: string, s: string, t: nat) returns (h: Hit)
    requires |r| == 6 && r[0] == Lit("\n") && r[1] == Blank && r[2] == Lit(mark)
    requires r[3] == Blank && r[4] == Text && r[5] == LineEnd
    requires |mark| == 9 && !IsSpace(mark[0])
    requires |a| > 0 && !IsSpace(a[0]) && '\n' !in a
    requires var w := "\n" + mark + " " + a + "\n"; t + |w| <= |s| && s[t..t + |w|] == w
    ensures Match(r, s, t) == Some(h)
    ensures h.end == t + |"\n" + mark + " " + a + "\n"|
    ensures |h.spans| == 3 && SpansIn(s, h.spans) && Capture(s, h.spans[2]) == a
  {
    LemmaAnswerMatchAt(r, mark, a, s, t);
    h := Hit(t + 12 + |a|, [Span(t + 1, t + 1), Span(t + 10, t + 11), Span(t + 11, t + 11 + |a|)]);
    var w := "\n" + mark + " " + a + "\n";
    LemmaSliceAt(s, t, w, 11, 11 + |a|);
    assert w[11..11 + |a|] == a;
  }

  /** The question line in front of a match of `next`, which starts with a
      newline: the spans of the number, the space and the question, then
      those of `next`. */
  lemma LemmaQuestionHitFor(p: Pattern, next: Pattern, d: string, qn: string, s: string, i: nat, h: Hit)
      returns (sp: seq<Span>)
    requires |p| == 4 && p[0] == Number && p[1] == Lit(".") && p[2] == Blank && p[3] == Text
    requires |d| > 0 && AllDigits(d)
    requires |qn| > 0 && !IsSpace(qn[0]) && '\n' !in qn
    requires |next| > 0 && next[0].Lit? && |next[0].lit| > 0 && next[0].lit[0] == '\n'
    requires var w := d + ". " + qn; i + |w| <= |s| && s[i..i + |w|] == w
    requires Match(next, s, i + |d + ". " + qn|) == Some(h)
    requires SpansIn(s, h.spans)
    ensures Match(p + next, s, i) == Some(Hit(h.end, sp))
    ensures |sp| == |h.spans| + 3 && SpansIn(s, sp)
    ensures Capture(s, sp[0]) == d && Capture(s, sp[2]) == qn
    ensures sp[3..] == h.spans
  {
    LemmaQuestionMatchAt(p, d, qn, next, s, i, h);
    LemmaSplitAt(s, i, d + ". ", qn);
    LemmaSplitAt(s, i, d, ". ");
    var head := [Span(i, i + |d|), Span(i + |d| + 1, i + |d| + 2), Span(i + |d| + 2, i + |d| + 2 + |qn|)];
    sp := head + h.spans;
    assert sp[3..] == h.spans;
  }

  /** Run spans whose number, question and answer runs capture the fields
      of a renderable record make `OpenOf` rebuild the record. */
  lemma LemmaOpenOfRead(s: string, sp: seq<Span>, q: OpenQuestion)
    requires |sp| == 6 && SpansIn(s, sp) && Renderable(q)
    requires Capture(s, sp[0]) == ToDecimal(q.number)
    requires Capture(s, sp[2]) == q.question && Capture(s, sp[5]) == q.answer
    ensures OpenSpans(s, sp) && OpenOf(s, sp) == q
  {
    LemmaOpenGroups(sp);
    LemmaDecimalRoundTrip(q.number);
    LemmaStripStripped(q.question);
    LemmaStripStripped(q.answer);
  }

  // ----- the whole reply -----

  /** The scan never starts a match at a newline: every match begins with
      a digit. */
  lemma LemmaNoMatchAtBreak(s: string, i: nat)
    requires i < |s| && s[i] == '\n'
    ensures Match(OpenPattern, s, i).None?
  {
    if Match(OpenPattern, s, i).Some? {
      assert OpenPattern[0] == Run(Digit, 1, true, true);
      LemmaLeadRun(OpenPattern, s, i);
    }
  }

  /** Nothing matches at the end of the text: every match is non-empty. */
  lemma LemmaNoMatchAtEnd(s: string)
    ensures Match(OpenPattern, s, |s|).None?
  {
    LemmaOpenCounts();
  }

  /** One step of the scan over written questions: the first question is
      matched where it starts, the blank line after it is skipped, and the
      scan carries on where the next question starts. */
  lemma LemmaScanStep(q: OpenQuestion, rest: string, s: string, i: nat) returns (f: Found)
    requires Renderable(q)
    requires i <= |s| && s[i..] == OpenText(q) + "\n" + rest
    ensures MinWidth(OpenPattern) > 0
    ensures f.end < |s| && s[f.end + 1..] == rest
    ensures OpenSpans(s, f.spans) && OpenOf(s, f.spans) == q
    ensures FindAll(OpenPattern, s, i) == [f] + FindAll(OpenPattern, s, f.end + 1)
  {
    LemmaOpenCounts();
    var w := OpenText(q);
    var e := i + |w|;
    assert e < |s| && s[e] == '\n' by {
      assert s[i..][|w|] == '\n';
    }
    assert s[i..e] == w by {
      assert s[i..][..|w|] == w;
    }
    assert s[e + 1..] == rest by {
      assert s[i..][|w| + 1..] == rest;
    }
    LemmaOpenMatch(q, s, i);
    var h := Match(OpenPattern, s, i).value;
    f := Found(i, e, h.spans);
    LemmaNoMatchAtBreak(s, e);
  }

  /** Scanning written questions from where they start reports one hit per
      question, and each hit rebuilds its question. */
  lemma {:induction false} LemmaScanRender(qs: seq<OpenQuestion>, s: string, i: nat)
    requires AllRenderable(qs)
    requires i <= |s| && s[i..] == RenderOpen(qs)
    ensures MinWidth(OpenPattern) > 0
    ensures OpenHits(s, FindAll(OpenPattern, s, i))
    ensures OpenRecords(s, FindAll(OpenPattern, s, i)) == qs
    decreases |qs|, 1
  {
    LemmaOpenCounts();
    if |qs| == 0 {
      assert i == |s|;
      LemmaNoMatchAtEnd(s);
    } else {
      LemmaScanRenderCons(qs, s, i);
    }
  }

  /** The same for at least one question: its hit, then the rest's hits. */
  lemma {:induction false} LemmaScanRenderCons(qs: seq<OpenQuestion>, s: string, i: nat)
    requires |qs| > 0 && AllRenderable(qs)
    requires i <= |s| && s[i..] == RenderOpen(qs)
    ensures MinWidth(OpenPattern) > 0
    ensures OpenHits(s, FindAll(OpenPattern, s, i))
    ensures OpenRecords(s, FindAll(OpenPattern, s, i)) == qs
    decreases |qs|, 0
  {
    LemmaOpenCounts();
    var f := LemmaScanStep(qs[0], RenderOpen(qs[1..]), s, i);
    var rest := qs[1..];
    LemmaScanRender(rest, s, f.end + 1);
    LemmaScanCons(s, f, FindAll(OpenPattern, s, f.end + 1), qs);
  }

  /** Putting the first question's hit in front of the rest's. */
  lemma LemmaScanCons(s: string, f: Found, fs: seq<Found>, qs: seq<OpenQuestion>)
    requires |qs| > 0
    requires OpenSpans(s, f.spans) && OpenOf(s, f.spans) == qs[0]
    requires OpenHits(s, fs) && OpenRecords(s, fs) == qs[1..]
    ensures OpenHits(s, [f] + fs) && OpenRecords(s, [f] + fs) == qs
  {
    LemmaOpenRecordsCons(s, f, fs);
    assert qs == [qs[0]] + qs[1..];
  }

  /** Questions written in the prompt's format are read back exactly by
      the parser. */
  lemma LemmaOpenRoundTrip(qs: seq<OpenQuestion>)
    requires AllRenderable(qs)
    ensures ParseOpen(RenderOpen(qs)) == qs
  {
    var s := RenderOpen(qs);
    assert s[0..] == s;
    LemmaScanRender(qs, s, 0);
    LemmaParseOpenScan(s);
  }

  /** So `generateOpenEnded` returns exactly those questions for such a
      reply, unless there are none, when the reply is empty and it fails. */
  lemma LemmaGenerateOpenRoundTrip(qs: seq<OpenQuestion>)
    requires AllRenderable(qs)
    ensures |qs| > 0 ==> GenerateOpen(Some(RenderOpen(qs))) == Produced(qs)
    ensures |qs| == 0 ==> GenerateOpen(Some(RenderOpen(qs))) == Failed(OpenFailure)
  {
    LemmaOpenRoundTrip(qs);
  }

  /** The parser's records are those of the scan from the start. */
  lemma LemmaParseOpenScan(s: string)
    ensures MinWidth(OpenPattern) > 0 && OpenHits(s, FindAll(OpenPattern, s, 0))
    ensures ParseOpen(s) == OpenRecords(s, FindAll(OpenPattern, s, 0))
  {
    LemmaOpenCounts();
    LemmaOpenScanHits(s, 0);
  }
}
