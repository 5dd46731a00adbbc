/** `generateMCQ` after the model call: the empty-reply check and the regex
    scan that turns the reply into multiple-choice questions. */
module McqParser {
  import opened Wrappers
  import opened Strings
  import opened Regex
  import opened Search
  import opened Layout

  /** One option of a question: its label (the `label` key of the JSON
      object) and its text. */
  datatype Choice = Choice(letter: string, text: string)

  /** The record built for each match of the pattern. */
  datatype Mcq = Mcq(question: string, options: seq<Choice>, answer: string)

  /** `(.*?)` under DOTALL: the shortest run of any characters, captured. */
  const Lazy: Item := Run(AnyChar, 0, false, true)

  /** `\s*`, not captured. */
  const Indent: Item := Run(Space, 0, true, false)

  /** The question number (group 1), ": " and the question (group 2). */
  const Head: Pattern := [Run(Digit, 1, true, true), Lit(": "), Lazy]

  /** One option line: a newline, optional whitespace, the label `l` with
      ") ", and the option text (one group). */
  function Opt(l: char): Pattern {
    [Lit("\n"), Indent, Lit([l, ')', ' ']), Lazy]
  }

  /** The answer line: a newline, "Answer: ", the answer (one group) and
      the newline that ends the line. */
  const Tail: Pattern := [Lit("\nAnswer: "), Lazy, Lit("\n")]

  /** The option lines for the labels `ls`, then the answer line. */
  function Body(ls: string): Pattern
    decreases |ls|
  {
    if |ls| == 0 then Tail else Opt(ls[0]) + Body(ls[1..])
  }

  /** The option labels, in order. */
  const Labels: string := "abcd"

  /** The pattern `generateMCQ` compiles with DOTALL: the question line,
      the four option lines and the answer line; seven groups. */
  const McqPattern: Pattern := Head + Body(Labels)

  const McqFailure: string := "Failed to generate MCQs."

  /** The shape of every record: four options labelled `a` to `d` in order,
      and every text field stripped. */
  predicate Shaped(m: Mcq) {
    && |m.options| == 4
    && (forall k :: 0 <= k < 4 ==> m.options[k].letter == [Labels[k]])
    && (forall k :: 0 <= k < 4 ==> Stripped(m.options[k].text))
    && Stripped(m.question) && Stripped(m.answer)
  }

  // ----- the pattern's runs and groups -----

  lemma LemmaOptCounts(l: char)
    ensures RunCount(Opt(l)) == 2 && GroupCount(Opt(l)) == 1 && MinWidth(Opt(l)) == 4
  {
    var o := Opt(l);
    assert o[3..][1..] == [];
    assert o[2..][1..] == o[3..];
    assert o[1..][1..] == o[2..];
    assert RunCount(o[3..]) == 1 && GroupCount(o[3..]) == 1 && MinWidth(o[3..]) == 0;
    assert RunCount(o[2..]) == 1 && GroupCount(o[2..]) == 1 && MinWidth(o[2..]) == 3;
    assert RunCount(o[1..]) == 2 && GroupCount(o[1..]) == 1 && MinWidth(o[1..]) == 3;
  }

  lemma LemmaTailCounts()
    ensures RunCount(Tail) == 1 && GroupCount(Tail) == 1
  {
    assert Tail[2..][1..] == [];
    assert Tail[1..][1..] == Tail[2..];
    assert RunCount(Tail[2..]) == 0 && GroupCount(Tail[2..]) == 0;
    assert RunCount(Tail[1..]) == 1 && GroupCount(Tail[1..]) == 1;
  }

  lemma LemmaHeadCounts()
    ensures RunCount(Head) == 2 && GroupCount(Head) == 2 && MinWidth(Head) > 0
  {
    assert Head[2..][1..] == [];
    assert Head[1..][1..] == Head[2..];
    assert RunCount(Head[2..]) == 1 && GroupCount(Head[2..]) == 1;
    assert RunCount(Head[1..]) == 1 && GroupCount(Head[1..]) == 1;
  }

  lemma {:induction false} LemmaBodyCounts(ls: string)
    ensures RunCount(Body(ls)) == 2 * |ls| + 1 && GroupCount(Body(ls)) == |ls| + 1
    decreases |ls|
  {
    if |ls| > 0 {
      LemmaOptCounts(ls[0]);
      LemmaCountsAppend(Opt(ls[0]), Body(ls[1..]));
      LemmaBodyCounts(ls[1..]);
    } else {
      LemmaTailCounts();
    }
  }

  /** The pattern has eleven runs, seven of them groups, and every match
      consumes at least one character. */
  lemma LemmaMcqCounts()
    ensures RunCount(McqPattern) == 11 && GroupCount(McqPattern) == 7
    ensures MinWidth(McqPattern) > 0
  {
    LemmaCountsAppend(Head, Body(Labels));
    LemmaBodyCounts(Labels);
    LemmaHeadCounts();
  }

  lemma LemmaOptGroups(l: char, sp: seq<Span>)
    requires |sp| == 2
    ensures RunCount(Opt(l)) == 2
    ensures Groups(Opt(l), sp) == [sp[1]]
  {
    LemmaOptCounts(l);
    var o := Opt(l);
    assert o[3..][1..] == [];
    assert o[2..][1..] == o[3..];
    assert o[1..][1..] == o[2..];
    assert Groups(o[3..], sp[1..]) == [sp[1]];
    assert Groups(o[2..], sp[1..]) == [sp[1]];
    assert Groups(o[1..], sp) == [sp[1]];
  }

  lemma LemmaTailGroups(sp: seq<Span>)
    requires |sp| == 1
    ensures RunCount(Tail) == 1
    ensures Groups(Tail, sp) == [sp[0]]
  {
    LemmaTailCounts();
    assert Tail[2..][1..] == [];
    assert Tail[1..][1..] == Tail[2..];
    assert Groups(Tail[2..], []) == [];
    assert Groups(Tail[1..], sp) == [sp[0]];
  }

  lemma LemmaHeadGroups(sp: seq<Span>)
    requires |sp| == 2
    ensures RunCount(Head) == 2
    ensures Groups(Head, sp) == [sp[0], sp[1]]
  {
    LemmaHeadCounts();
    assert Head[2..][1..] == [];
    assert Head[1..][1..] == Head[2..];
    assert Groups(Head[2..], sp[1..]) == [sp[1]];
    assert Groups(Head[1..], sp[1..]) == [sp[1]];
  }

  /** Option line `j` holds group `j + 1` of the body in its second run,
      and the answer line holds the last group. */
  lemma {:induction false} LemmaBodyGroups(ls: string, sp: seq<Span>)
    requires |sp| == 2 * |ls| + 1
    ensures RunCount(Body(ls)) == |sp|
    ensures |Groups(Body(ls), sp)| == |ls| + 1
    ensures forall j :: 0 <= j < |ls| ==> Groups(Body(ls), sp)[j] == sp[2 * j + 1]
    ensures Groups(Body(ls), sp)[|ls|] == sp[2 * |ls|]
    decreases |ls|, 1
  {
    if |ls| == 0 {
      LemmaBodyCounts(ls);
      LemmaGroupsCount(Body(ls), sp);
      LemmaTailGroups(sp);
    } else {
      LemmaBodyGroupsCons(ls, sp);
    }
  }

  /** The same for a first option line in front of the rest. */
  lemma {:induction false} LemmaBodyGroupsCons(ls: string, sp: seq<Span>)
    requires |ls| > 0 && |sp| == 2 * |ls| + 1
    ensures RunCount(Body(ls)) == |sp|
    ensures |Groups(Body(ls), sp)| == |ls| + 1
    ensures forall j :: 0 <= j < |ls| ==> Groups(Body(ls), sp)[j] == sp[2 * j + 1]
    ensures Groups(Body(ls), sp)[|ls|] == sp[2 * |ls|]
    decreases |ls|, 0
  {
    var o := Opt(ls[0]);
    var a, b := sp[..2], sp[2..];
    LemmaOptCounts(ls[0]);
    LemmaBodyCounts(ls[1..]);
    assert sp == a + b;
    assert Body(ls) == o + Body(ls[1..]);
    LemmaGroupsAppend(o, Body(ls[1..]), a, b);
    LemmaOptGroups(ls[0], a);
    LemmaBodyGroups(ls[1..], b);
    var g := Groups(Body(ls), sp);
    assert g == [sp[1]] + Groups(Body(ls[1..]), b);
    forall j | 0 <= j < |ls|
      ensures g[j] == sp[2 * j + 1]
    {
      if j > 0 {
        assert g[j] == Groups(Body(ls[1..]), b)[j - 1];
      }
    }
  }

  /** Python's group numbers on the pattern's eleven run spans: group 1 is
      the number, group 2 the question, groups 3 to 6 the option texts and
      group 7 the answer. */
  lemma LemmaMcqGroups(sp: seq<Span>)
    requires |sp| == 11
    ensures RunCount(McqPattern) == 11
    ensures |Groups(McqPattern, sp)| == 7
    ensures Groups(McqPattern, sp)[0] == sp[0] && Groups(McqPattern, sp)[1] == sp[1]
    ensures forall j :: 0 <= j < 4 ==> Groups(McqPattern, sp)[j + 2] == sp[2 * j + 3]
    ensures Groups(McqPattern, sp)[6] == sp[10]
    ensures Groups(McqPattern, sp) == McqGroupSpans(sp)
  {
    LemmaMcqCounts();
    LemmaMcqGroupSpans(sp);
  }

  /** The seven groups of the pattern, as a list of run spans. */
  lemma LemmaMcqGroupSpans(sp: seq<Span>)
    requires |sp| == 11
    ensures RunCount(McqPattern) == 11 && Groups(McqPattern, sp) == McqGroupSpans(sp)
  {
    LemmaBodyCounts(Labels);
    var b := sp[2..];
    assert Groups(Body(Labels), b) == [sp[3], sp[5], sp[7], sp[9], sp[10]] by {
      assert |Labels| == 4;
      LemmaBodyGroups(Labels, b);
    }
    LemmaHeadThen(Body(Labels), sp);
  }

  /** `Head` in front of a body of nine runs whose groups are known. */
  lemma LemmaHeadThen(body: Pattern, sp: seq<Span>)
    requires |sp| == 11 && RunCount(body) == 9
    requires Groups(body, sp[2..]) == [sp[3], sp[5], sp[7], sp[9], sp[10]]
    ensures RunCount(Head + body) == 11 && Groups(Head + body, sp) == McqGroupSpans(sp)
  {
    var a, b := sp[..2], sp[2..];
    assert sp == a + b;
    LemmaHeadGroups(a);
    LemmaGroupsAppend(Head, body, a, b);
  }

  /** The group spans among the eleven run spans of a match: the number,
      the question, the four option texts and the answer. */
  function McqGroupSpans(sp: seq<Span>): (g: seq<Span>)
    requires |sp| == 11
  {
    [sp[0], sp[1], sp[3], sp[5], sp[7], sp[9], sp[10]]
  }
  // ----- the parser -----

  /** The record for one match with groups `g` (Python's groups 1 to 7):
      groups 2 to 7, each stripped; group 1, the number, is dropped. */
  function RecordOf(s: string, g: seq<Span>): (m: Mcq)
    requires |g| == 7
    requires forall k :: 0 <= k < 7 ==> g[k].lo <= g[k].hi <= |s|
    ensures Shaped(m)
  {
    var q := Strip(Capture(s, g[1]));
    var a := Strip(Capture(s, g[2]));
    var b := Strip(Capture(s, g[3]));
    var c := Strip(Capture(s, g[4]));
    var d := Strip(Capture(s, g[5]));
    var ans := Strip(Capture(s, g[6]));
    LemmaStripShape(Capture(s, g[1]));
    LemmaStripShape(Capture(s, g[2]));
    LemmaStripShape(Capture(s, g[3]));
    LemmaStripShape(Capture(s, g[4]));
    LemmaStripShape(Capture(s, g[5]));
    LemmaStripShape(Capture(s, g[6]));
    LemmaShaped(q, a, b, c, d, ans);
    McqRecord(q, a, b, c, d, ans)
  }

  /** The object `generateMCQ` appends: the question, the options labelled
      `a` to `d`, and the answer. */
  function McqRecord(q: string, a: string, b: string, c: string, d: string, ans: string): Mcq {
    Mcq(q, [Choice("a", a), Choice("b", b), Choice("c", c), Choice("d", d)], ans)
  }

  /** A record with four options labelled in order and stripped fields is shaped. */
  lemma LemmaShaped(q: string, a: string, b: string, c: string, d: string, ans: string)
    requires Stripped(q) && Stripped(a) && Stripped(b) && Stripped(c) && Stripped(d) && Stripped(ans)
    ensures Shaped(McqRecord(q, a, b, c, d, ans))
  {
    assert Labels == ['a', 'b', 'c', 'd'];
  }

  /** Every shaped record is the object built from its own fields. */
  lemma LemmaShapedRecord(m: Mcq)
    requires Shaped(m)
    ensures m == McqRecord(m.question, m.options[0].text, m.options[1].text,
      m.options[2].text, m.options[3].text, m.answer)
  {
    var os := m.options;
    assert Labels == ['a', 'b', 'c', 'd'];
    assert os[0].letter == "a" && os[1].letter == "b" && os[2].letter == "c" && os[3].letter == "d";
    assert os == [Choice("a", os[0].text), Choice("b", os[1].text),
                  Choice("c", os[2].text), Choice("d", os[3].text)];
  }

  /** The record for one match with run spans `spans`, built from its
      groups (`LemmaMcqGroups`). */
  function McqOf(s: string, spans: seq<Span>): (m: Mcq)
    requires |spans| == 11
    requires forall k :: 0 <= k < |spans| ==> spans[k].lo <= spans[k].hi <= |s|
    ensures Shaped(m)
  {
    RecordOf(s, McqGroupSpans(spans))
  }

  /** Each entry of `fs` carries one span per run of the pattern, inside `s`. */
  predicate Hits(s: string, fs: seq<Found>) {
    forall k :: 0 <= k < |fs| ==> |fs[k].spans| == 11 && SpansIn(s, fs[k].spans)
  }

  /** One record per hit, in the order of the hits. */
  function Records(s: string, fs: seq<Found>): (r: seq<Mcq>)
    requires Hits(s, fs)
    ensures |r| == |fs|
    ensures forall k :: 0 <= k < |r| ==> Shaped(r[k])
    decreases |fs|
  {
    if fs == [] then [] else [McqOf(s, fs[0].spans)] + Records(s, fs[1..])
  }

  /** Record `k` is built from hit `k` alone. */
  lemma {:induction false} LemmaRecordsAt(s: string, fs: seq<Found>, k: nat)
    requires Hits(s, fs) && k < |fs|
    ensures |fs[k].spans| == 11 && SpansIn(s, fs[k].spans)
    ensures Records(s, fs)[k] == McqOf(s, fs[k].spans)
    decreases k
  {
    if k > 0 {
      LemmaRecordsAt(s, fs[1..], k - 1);
      assert fs[1..][k - 1] == fs[k];
    }
  }

  /** What the scan reports are hits. */
  lemma LemmaScanHits(reply: string, pos: nat)
    requires MinWidth(McqPattern) > 0 && pos <= |reply|
    ensures Hits(reply, FindAll(McqPattern, reply, pos))
  {
    var fs := FindAll(McqPattern, reply, pos);
    LemmaMcqCounts();
    forall k | 0 <= k < |fs|
      ensures |fs[k].spans| == 11 && SpansIn(reply, fs[k].spans)
    {
      LemmaMatchSpans(McqPattern, reply, fs[k].start);
    }
  }

  /** The records of a list of hits are the first hit's record followed by
      the records of the rest. */
  lemma LemmaRecordsCons(s: string, f: Found, fs: seq<Found>)
    requires |f.spans| == 11 && SpansIn(s, f.spans) && Hits(s, fs)
    ensures Hits(s, [f] + fs)
    ensures Records(s, [f] + fs) == [McqOf(s, f.spans)] + Records(s, fs)
  {
    var all := [f] + fs;
    forall k | 0 <= k < |all|
      ensures |all[k].spans| == 11 && SpansIn(s, all[k].spans)
    {
      if k > 0 {
        assert all[k] == fs[k - 1];
      }
    }
    assert all[1..] == fs;
  }

  /** The reply parser: one record per match that `finditer` reports. */
  function ParseMcq(reply: string): (r: seq<Mcq>)
    ensures forall k :: 0 <= k < |r| ==> Shaped(r[k])
    ensures |r| == |FindAll(McqPattern, reply, 0)|
  {
    LemmaMcqCounts();
    LemmaScanHits(reply, 0);
    Records(reply, FindAll(McqPattern, reply, 0))
  }

  /** `generateMCQ` once the model has replied: an absent or empty reply
      gives the error object, anything else is parsed. */
  function GenerateMcq(reply: Option<string>): (r: Generated<Mcq>)
    ensures r.Failed? <==> reply.None? || reply.value == ""
    ensures r.Failed? ==> r.error == "Failed to generate MCQs."
    ensures r.Produced? ==> r.items == ParseMcq(reply.value)
  {
    if reply.None? || reply.value == "" then Failed(McqFailure)
    else Produced(ParseMcq(reply.value))
  }

  // ----- what the records say about the reply -----

  /** A reply yields no question exactly when the pattern matches nowhere in it. */
  lemma LemmaMcqNone(reply: string)
    ensures ParseMcq(reply) == [] <==> Unmatched(McqPattern, reply, 0, |reply| + 1)
  {
    LemmaMcqCounts();
    LemmaFindAllEmpty(McqPattern, reply, 0);
  }

  /** A hit of the option lines and answer line continues, past the option
      lines, with a hit of the answer line. */
  lemma {:induction false} LemmaBodyTail(ls: string, s: string, i: nat) returns (t: nat)
    requires i <= |s| && Match(Body(ls), s, i).Some?
    ensures 2 * |ls| <= |Match(Body(ls), s, i).value.spans|
    ensures i <= t <= |s|
    ensures Match(Tail, s, t) == Some(Hit(Match(Body(ls), s, i).value.end,
      Match(Body(ls), s, i).value.spans[2 * |ls|..]))
    decreases |ls|
  {
    var h := Match(Body(ls), s, i).value;
    if |ls| == 0 {
      t := i;
    } else {
      LemmaOptCounts(ls[0]);
      var u := LemmaMatchSplit(Opt(ls[0]), Body(ls[1..]), s, i);
      t := LemmaBodyTail(ls[1..], s, u);
      assert h.spans[2..][2 * (|ls| - 1)..] == h.spans[2 * |ls|..];
    }
  }

  /** A hit of the whole pattern ends with a hit of the answer line, which
      holds the last run span. */
  lemma LemmaMcqTail(s: string, i: nat) returns (t: nat)
    requires i <= |s| && Match(McqPattern, s, i).Some?
    ensures |Match(McqPattern, s, i).value.spans| == 11
    ensures i <= t <= |s|
    ensures Match(Tail, s, t) == Some(Hit(Match(McqPattern, s, i).value.end,
      Match(McqPattern, s, i).value.spans[10..]))
  {
    var h := Match(McqPattern, s, i).value;
    LemmaMcqCounts();
    LemmaMatchSpans(McqPattern, s, i);
    var t0 := LemmaMatchSplit(Head, Body(Labels), s, i);
    LemmaHeadCounts();
    t := LemmaBodyTail(Labels, s, t0);
    assert |Labels| == 4;
    assert h.spans[2..][8..] == h.spans[10..];
  }

  /** The answer of each record is read from the last run span of its hit. */
  lemma LemmaMcqAnswerSpan(reply: string, k: nat, lo: nat, hi: nat)
    requires k < |FindAll(McqPattern, reply, 0)|
    requires |FindAll(McqPattern, reply, 0)[k].spans| == 11
    requires FindAll(McqPattern, reply, 0)[k].spans[10] == Span(lo, hi)
    ensures lo <= hi <= |reply| && |ParseMcq(reply)| == |FindAll(McqPattern, reply, 0)|
    ensures ParseMcq(reply)[k].answer == Strip(reply[lo..hi])
  {
    LemmaMcqCounts();
    var fs := FindAll(McqPattern, reply, 0);
    LemmaScanHits(reply, 0);
    LemmaRecordsAt(reply, fs, k);
    LemmaMcqGroups(fs[k].spans);
  }

  /** A hit of the pattern from `i` to `e` holds a newline and "Answer: "
      at `t`; its last run span runs from there to the next newline, and
      that newline ends the hit. */
  lemma LemmaHitAnswerLine(s: string, i: nat, e: nat, sp: seq<Span>) returns (t: nat)
    requires i <= |s| && Match(McqPattern, s, i) == Some(Hit(e, sp))
    ensures |sp| == 11 && i <= t && t + 9 == sp[10].lo <= sp[10].hi && sp[10].hi + 1 == e <= |s|
    ensures s[t..t + 9] == "\nAnswer: " && s[e - 1] == '\n'
    ensures forall u :: t + 9 <= u < e - 1 ==> s[u] != '\n'
  {
    t := LemmaMcqTail(s, i);
    var ans := LemmaAnswerLine(s, t, e, sp[10..]);
    assert ans == sp[10];
  }

  /** The answer of record `k` is the rest of an "Answer: " line: the hit
      holds a newline and "Answer: " at `t`; the answer is the stripped text
      from there to the next newline, and that newline ends the hit. So an
      answer line that no newline ends never yields a record. */
  lemma LemmaMcqAnswerLine(reply: string, k: nat) returns (t: nat)
    requires k < |FindAll(McqPattern, reply, 0)|
    ensures var f := FindAll(McqPattern, reply, 0)[k];
      && f.start <= t && t + 9 < f.end <= |reply|
      && reply[t..t + 9] == "\nAnswer: "
      && reply[f.end - 1] == '\n'
      && (forall u :: t + 9 <= u < f.end - 1 ==> reply[u] != '\n')
      && |ParseMcq(reply)| == |FindAll(McqPattern, reply, 0)|
      && ParseMcq(reply)[k].answer == Strip(reply[t + 9..f.end - 1])
  {
    LemmaMcqCounts();
    var f := FindAll(McqPattern, reply, 0)[k];
    t := LemmaHitAnswerLine(reply, f.start, f.end, f.spans);
    LemmaMcqAnswerSpan(reply, k, t + 9, f.end - 1);
  }

  /** A hit of the answer line: "\nAnswer: ", then the answer up to the
      first newline, then that newline. */
  lemma LemmaAnswerLine(s: string, t: nat, e: nat, sp: seq<Span>) returns (a: Span)
    requires t <= |s| && Match(Tail, s, t) == Some(Hit(e, sp))
    ensures |sp| > 0 && a == sp[0] && a.lo == t + 9 && a.hi + 1 == e <= |s|
    ensures s[t..t + 9] == "\nAnswer: " && s[a.hi] == '\n'
    ensures forall u :: a.lo <= u < a.hi ==> s[u] != '\n'
  {
    var u := LemmaMatchStep(Tail, s, t);
    assert Tail[1..] == [Lazy, Lit("\n")];
    assert Tail[1..][1..] == [Lit("\n")];
    LemmaLazyEnd(Tail[1..], s, u);
    a := sp[0];
    forall v | a.lo <= v < a.hi
      ensures s[v] != '\n'
    {
      assert Match([Lit("\n")], s, v).None?;
    }
    assert Match([Lit("\n")], s, a.hi).Some?;
    LemmaLitStep([Lit("\n")], s, a.hi);
    assert s[a.hi] == s[a.hi..a.hi + 1][0];
  }

  // ----- the question and the options of a hit -----

  /** A hit of the whole pattern from `i`: the number's digits up to `c`,
      ": ", then the question, which ends at the first position from which
      the option lines and the answer line match. */
  lemma LemmaMcqHead(s: string, i: nat, e: nat, sp: seq<Span>) returns (c: nat)
    requires i <= |s| && Match(McqPattern, s, i) == Some(Hit(e, sp))
    ensures |sp| == 11 && SpansIn(s, sp) && sp[0] == Span(i, c) && i < c && AllIn(Digit, s, i, c)
    ensures c + 2 <= |s| && s[c..c + 2] == ": "
    ensures sp[1].lo == c + 2 <= sp[1].hi <= |s|
    ensures Match(Body(Labels), s, sp[1].hi) == Some(Hit(e, sp[2..]))
    ensures forall v :: c + 2 <= v < sp[1].hi ==> Match(Body(Labels), s, v).None?
  {
    LemmaMcqCounts();
    LemmaMatchSpans(McqPattern, s, i);
    var q := McqPattern;
    assert q[0] == Head[0] && q[1] == Lit(": ") && q[2] == Lazy && q[3..] == Body(Labels);
    c := LemmaHeadShape(q, Body(Labels), s, i, e, sp);
  }

  /** The same for any pattern that opens like `Head` and goes on with
      `next`. */
  lemma LemmaHeadShape(q: Pattern, next: Pattern, s: string, i: nat, e: nat, sp: seq<Span>) returns (c: nat)
    requires |q| >= 3 && q[0] == Head[0] && q[1] == Lit(": ") && q[2] == Lazy && q[3..] == next
    requires i <= |s| && Match(q, s, i) == Some(Hit(e, sp))
    ensures |sp| >= 2 && sp[0] == Span(i, c) && i < c && AllIn(Digit, s, i, c)
    ensures c + 2 <= |s| && s[c..c + 2] == ": "
    ensures sp[1].lo == c + 2 <= sp[1].hi <= |s|
    ensures Match(next, s, sp[1].hi) == Some(Hit(e, sp[2..]))
    ensures forall v :: c + 2 <= v < sp[1].hi ==> Match(next, s, v).None?
  {
    assert q[1..][0] == Lit(": ") && q[1..][1..] == q[2..];
    assert q[2..][0] == Lazy && q[2..][1..] == next;
    LemmaRunStep(q, s, i);
    c := sp[0].hi;
    var t := sp[1..];
    assert Match(q[1..], s, c) == Some(Hit(e, t));
    LemmaLitStep(q[1..], s, c);
    assert Match(q[2..], s, c + 2) == Some(Hit(e, t));
    LemmaLazyEnd(q[2..], s, c + 2);
    assert Match(next, s, t[0].hi) == Some(Hit(e, t[1..]));
    assert t[1..] == sp[2..];
  }

  /** One option line at the head of a hit from `i`: a newline at `i`,
      whitespace up to `m`, the label `l` and ") " at `m`, then the option
      text, which ends at the first position from which `next` matches. */
  lemma LemmaOptHead(q: Pattern, l: char, next: Pattern, s: string, i: nat, e: nat, sp: seq<Span>) returns (m: nat)
    requires |q| >= 4 && q[0] == Lit("\n") && q[1] == Indent && q[2] == Lit([l, ')', ' ']) && q[3] == Lazy
    requires q[4..] == next
    requires i <= |s| && Match(q, s, i) == Some(Hit(e, sp))
    ensures |sp| >= 2 && i < |s| && s[i] == '\n'
    ensures sp[0] == Span(i + 1, m) && i + 1 <= m <= |s| && AllIn(Space, s, i + 1, m)
    ensures m + 3 <= |s| && s[m..m + 3] == [l, ')', ' ']
    ensures sp[1].lo == m + 3 <= sp[1].hi <= |s|
    ensures Match(next, s, sp[1].hi) == Some(Hit(e, sp[2..]))
    ensures forall v :: m + 3 <= v < sp[1].hi ==> Match(next, s, v).None?
  {
    m := LemmaNewlineIndent(q, s, i, e, sp);
    var r := q[2..];
    assert r[0] == Lit([l, ')', ' ']) && r[1] == Lazy && r[2..] == next;
    LemmaLabelText(r, l, next, s, m, e, sp[1..]);
    assert sp[1..][0] == sp[1] && sp[1..][1..] == sp[2..];
  }

  /** A newline and whitespace at the head of a hit from `i`: the
      whitespace run spans `i + 1` to `m`, and the rest of the pattern takes
      the hit from `m`. */
  lemma LemmaNewlineIndent(q: Pattern, s: string, i: nat, e: nat, sp: seq<Span>) returns (m: nat)
    requires |q| >= 2 && q[0] == Lit("\n") && q[1] == Indent
    requires i <= |s| && Match(q, s, i) == Some(Hit(e, sp))
    ensures |sp| > 0 && i < |s| && s[i] == '\n'
    ensures sp[0] == Span(i + 1, m) && i + 1 <= m <= |s| && AllIn(Space, s, i + 1, m)
    ensures Match(q[2..], s, m) == Some(Hit(e, sp[1..]))
  {
    LemmaLitStep(q, s, i);
    assert s[i] == s[i..i + 1][0];
    var r := q[1..];
    assert r[0] == Indent && r[1..] == q[2..];
    LemmaRunStep(r, s, i + 1);
    m := sp[0].hi;
  }

  /** An option's label and ") " at `m`, then its text, which ends at the
      first position from which `next` matches. */
  lemma LemmaLabelText(r: Pattern, l: char, next: Pattern, s: string, m: nat, e: nat, sp: seq<Span>)
    requires |r| >= 2 && r[0] == Lit([l, ')', ' ']) && r[1] == Lazy && r[2..] == next
    requires m <= |s| && Match(r, s, m) == Some(Hit(e, sp))
    ensures |sp| > 0 && m + 3 <= |s| && s[m..m + 3] == [l, ')', ' ']
    ensures sp[0].lo == m + 3 <= sp[0].hi <= |s|
    ensures Match(next, s, sp[0].hi) == Some(Hit(e, sp[1..]))
    ensures forall v :: m + 3 <= v < sp[0].hi ==> Match(next, s, v).None?
  {
    LemmaLitStep(r, s, m);
    assert r[1..][0] == Lazy && r[1..][1..] == next;
    LemmaLazyEnd(r[1..], s, m + 3);
  }

  /** `hi` is the first position from `lo` on from which `p` matches: the
      end a lazy run starting at `lo` takes in front of `p`. */
  predicate FirstMatchFrom(p: Pattern, s: string, lo: nat, hi: nat) {
    && lo <= hi <= |s| && Match(p, s, hi).Some?
    && forall v :: lo <= v < hi ==> Match(p, s, v).None?
  }

  /** The head of an option line at `t`: a newline, whitespace up to `m`,
      then the label `l` and ") ". */
  predicate OptionLead(s: string, t: nat, m: nat, l: char) {
    && t < m && m + 3 <= |s| && s[t] == '\n' && AllIn(Space, s, t + 1, m)
    && s[m..m + 3] == [l, ')', ' ']
  }

  /** Option `j` of a hit of the option lines for `ls` from `i`: its line
      starts at `t` with the label `ls[j]` at `m`, and its text, run span
      `2 * j + 1`, ends at the first position `hi` from which the remaining
      option lines and the answer line match. */
  lemma {:induction false} LemmaBodyOptAt(ls: string, s: string, i: nat, e: nat, sp: seq<Span>, j: nat)
    returns (t: nat, m: nat, hi: nat)
    requires j < |ls| && i <= |s| && Match(Body(ls), s, i) == Some(Hit(e, sp))
    ensures 2 * j + 1 < |sp| && (j == 0 ==> t == i) && (j > 0 ==> sp[2 * j - 1].hi == t) && i <= t
    ensures OptionLead(s, t, m, ls[j]) && sp[2 * j] == Span(t + 1, m) && sp[2 * j + 1] == Span(m + 3, hi)
    ensures FirstMatchFrom(Body(ls[j + 1..]), s, m + 3, hi)
    decreases j, 1
  {
    if j == 0 {
      t := i;
      m, hi := LemmaBodyFirst(ls, s, i, e, sp);
    } else {
      var m0, u := LemmaBodyFirst(ls, s, i, e, sp);
      t, m, hi := LemmaBodyOptLater(ls, s, u, e, sp, j);
    }
  }

  /** An option line after the first is option line `j - 1` of the hit
      of the remaining lines, which starts at `u`, where the first line's
      text ends. */
  lemma {:induction false} LemmaBodyOptLater(ls: string, s: string, u: nat, e: nat, sp: seq<Span>, j: nat)
    returns (t: nat, m: nat, hi: nat)
    requires 0 < j < |ls| && 2 <= |sp| && sp[1].hi == u
    requires u <= |s| && Match(Body(ls[1..]), s, u) == Some(Hit(e, sp[2..]))
    ensures 2 * j + 1 < |sp| && sp[2 * j - 1].hi == t && u <= t
    ensures OptionLead(s, t, m, ls[j]) && sp[2 * j] == Span(t + 1, m) && sp[2 * j + 1] == Span(m + 3, hi)
    ensures FirstMatchFrom(Body(ls[j + 1..]), s, m + 3, hi)
    decreases j, 0
  {
    t, m, hi := LemmaBodyOptAt(ls[1..], s, u, e, sp[2..], j - 1);
    assert sp[2 * j - 1].hi == t by {
      if j > 1 {
        assert sp[2..][2 * (j - 1) - 1] == sp[2 * j - 1];
      }
    }
    LemmaShiftOpt(ls, s, sp, j, t, m, hi);
  }

  /** The first option line of a hit of the option lines for `ls`; the
      hit of the other lines starts where its text ends. */
  lemma LemmaBodyFirst(ls: string, s: string, i: nat, e: nat, sp: seq<Span>) returns (m: nat, hi: nat)
    requires 0 < |ls| && i <= |s| && Match(Body(ls), s, i) == Some(Hit(e, sp))
    ensures |sp| >= 2 && OptionLead(s, i, m, ls[0])
    ensures sp[0] == Span(i + 1, m) && sp[1] == Span(m + 3, hi)
    ensures FirstMatchFrom(Body(ls[1..]), s, m + 3, hi)
    ensures Match(Body(ls[1..]), s, hi) == Some(Hit(e, sp[2..]))
  {
    var q := Body(ls);
    assert q == Opt(ls[0]) + Body(ls[1..]);
    assert q[0] == Lit("\n") && q[1] == Indent && q[2] == Lit([ls[0], ')', ' ']) && q[3] == Lazy;
    assert q[4..] == Body(ls[1..]);
    m := LemmaOptHead(q, ls[0], Body(ls[1..]), s, i, e, sp);
    hi := sp[1].hi;
  }

  /** Option `j` of the option lines for `ls` is option `j - 1` of those
      for `ls[1..]`, two run spans further on. */
  lemma LemmaShiftOpt(ls: string, s: string, sp: seq<Span>, j: nat, t: nat, m: nat, hi: nat)
    requires 0 < j < |ls| && 2 <= |sp| && 2 * (j - 1) + 1 < |sp[2..]|
    requires OptionLead(s, t, m, ls[1..][j - 1])
    requires sp[2..][2 * (j - 1)] == Span(t + 1, m) && sp[2..][2 * (j - 1) + 1] == Span(m + 3, hi)
    requires FirstMatchFrom(Body(ls[1..][j - 1 + 1..]), s, m + 3, hi)
    ensures 2 * j + 1 < |sp|
    ensures OptionLead(s, t, m, ls[j]) && sp[2 * j] == Span(t + 1, m) && sp[2 * j + 1] == Span(m + 3, hi)
    ensures FirstMatchFrom(Body(ls[j + 1..]), s, m + 3, hi)
  {
    assert ls[1..][j - 1 + 1..] == ls[j + 1..];
  }

  /** The question of each record is read from the second run span of its hit. */
  lemma LemmaMcqQuestionSpan(reply: string, k: nat, lo: nat, hi: nat)
    requires k < |FindAll(McqPattern, reply, 0)|
    requires |FindAll(McqPattern, reply, 0)[k].spans| == 11
    requires FindAll(McqPattern, reply, 0)[k].spans[1] == Span(lo, hi)
    ensures lo <= hi <= |reply| && |ParseMcq(reply)| == |FindAll(McqPattern, reply, 0)|
    ensures ParseMcq(reply)[k].question == Strip(reply[lo..hi])
  {
    LemmaMcqCounts();
    var fs := FindAll(McqPattern, reply, 0);
    LemmaScanHits(reply, 0);
    LemmaRecordsAt(reply, fs, k);
  }

  /** Option `j` of each record is read from run span `2 * j + 3` of its hit. */
  lemma LemmaMcqOptionSpan(reply: string, k: nat, j: nat, lo: nat, hi: nat)
    requires k < |FindAll(McqPattern, reply, 0)| && j < 4
    requires |FindAll(McqPattern, reply, 0)[k].spans| == 11
    requires FindAll(McqPattern, reply, 0)[k].spans[2 * j + 3] == Span(lo, hi)
    ensures lo <= hi <= |reply| && |ParseMcq(reply)| == |FindAll(McqPattern, reply, 0)|
    ensures ParseMcq(reply)[k].options[j] == Choice([Labels[j]], Strip(reply[lo..hi]))
  {
    LemmaMcqCounts();
    var fs := FindAll(McqPattern, reply, 0);
    var sp := fs[k].spans;
    LemmaScanHits(reply, 0);
    LemmaRecordsAt(reply, fs, k);
    var caps := [Capture(reply, sp[3]), Capture(reply, sp[5]), Capture(reply, sp[7]), Capture(reply, sp[9])];
    LemmaOptionCapture(reply, sp, j, lo, hi);
    LemmaRecordOption(Strip(Capture(reply, sp[1])), caps, Strip(Capture(reply, sp[10])), j);
  }

  /** Option `j` of a record is labelled `Labels[j]` and holds the `j`-th
      of the four option texts, stripped. */
  lemma LemmaRecordOption(q: string, caps: seq<string>, ans: string, j: nat)
    requires |caps| == 4 && j < 4
    ensures McqRecord(q, Strip(caps[0]), Strip(caps[1]), Strip(caps[2]), Strip(caps[3]), ans).options[j]
      == Choice([Labels[j]], Strip(caps[j]))
  {
    assert Labels == ['a', 'b', 'c', 'd'];
    if j == 0 {} else if j == 1 {} else if j == 2 {} else {}
  }

  /** The text of option `j` is what run span `2 * j + 3` of the hit covers. */
  lemma LemmaOptionCapture(s: string, sp: seq<Span>, j: nat, lo: nat, hi: nat)
    requires |sp| == 11 && SpansIn(s, sp) && j < 4 && sp[2 * j + 3] == Span(lo, hi)
    ensures [Capture(s, sp[3]), Capture(s, sp[5]), Capture(s, sp[7]), Capture(s, sp[9])][j] == s[lo..hi]
  {
    if j == 0 {} else if j == 1 {} else if j == 2 {} else {}
  }

  /** The question line of a hit from `i`: the number's digits up to `c`,
      ": ", then the question, which ends at the first position `b` from
      which the option lines and the answer line match; the first option
      line starts at `b`, with its label at `m`. */
  lemma LemmaHeadHit(s: string, i: nat, e: nat, sp: seq<Span>) returns (c: nat, b: nat, m: nat)
    requires i <= |s| && Match(McqPattern, s, i) == Some(Hit(e, sp))
    ensures |sp| == 11 && i < c && c + 2 <= b < |s|
    ensures AllIn(Digit, s, i, c) && s[c..c + 2] == ": " && sp[1] == Span(c + 2, b)
    ensures FirstMatchFrom(Body(Labels), s, c + 2, b) && OptionLead(s, b, m, Labels[0])
  {
    c := LemmaMcqHead(s, i, e, sp);
    b := sp[1].hi;
    var t, hi;
    t, m, hi := LemmaBodyOptAt(Labels, s, b, e, sp[2..], 0);
  }

  /** The question of record `k` is the stripped text after the number's
      digits and ": " (at `c`), up to the first position `b` from which
      the option lines and the answer line match; the first option line
      starts at `b`, with its label at `m`. */
  lemma LemmaMcqQuestion(reply: string, k: nat) returns (c: nat, b: nat, m: nat)
    requires k < |FindAll(McqPattern, reply, 0)|
    ensures var f := FindAll(McqPattern, reply, 0)[k];
      && f.start < c && c + 2 <= b < |reply| && AllIn(Digit, reply, f.start, c) && reply[c..c + 2] == ": "
      && FirstMatchFrom(Body(Labels), reply, c + 2, b) && OptionLead(reply, b, m, Labels[0])
      && |ParseMcq(reply)| == |FindAll(McqPattern, reply, 0)|
      && ParseMcq(reply)[k].question == Strip(reply[c + 2..b])
  {
    LemmaMcqCounts();
    var f := FindAll(McqPattern, reply, 0)[k];
    c, b, m := LemmaHeadHit(reply, f.start, f.end, f.spans);
    LemmaMcqQuestionSpan(reply, k, c + 2, b);
  }

  /** Option `j` of a hit from `i` of a pattern that opens like `Head` and
      goes on with the option lines for `ls`: the lazy run that ends where
      its line starts begins at `p`, and its own text runs from `m + 3` to
      `hi`. `p` is just past the question's ": " for the first option and
      just past the previous option's label otherwise. */
  lemma LemmaOptionHit(q: Pattern, ls: string, s: string, i: nat, e: nat, sp: seq<Span>, j: nat)
    returns (p: nat, t: nat, m: nat, hi: nat)
    requires |q| >= 3 && q[0] == Head[0] && q[1] == Lit(": ") && q[2] == Lazy && q[3..] == Body(ls)
    requires j < |ls| && i <= |s| && Match(q, s, i) == Some(Hit(e, sp))
    ensures 2 * j + 3 < |sp| && sp[2 * j + 1] == Span(p, t) && sp[2 * j + 3] == Span(m + 3, hi)
    ensures p <= t <= |s| && FirstMatchFrom(Body(ls[j..]), s, p, t)
    ensures OptionLead(s, t, m, ls[j]) && FirstMatchFrom(Body(ls[j + 1..]), s, m + 3, hi)
    ensures j == 0 ==> i + 2 < p && AllIn(Digit, s, i, p - 2) && s[p - 2..p] == ": "
    ensures j > 0 ==> 3 <= p && s[p - 3..p] == [ls[j - 1], ')', ' ']
  {
    var c := LemmaHeadShape(q, Body(ls), s, i, e, sp);
    var p';
    p', t, m, hi := LemmaOptionIn(ls, s, sp[1].hi, e, sp[2..], j);
    assert sp[2..][2 * j + 1] == sp[2 * j + 3];
    if j == 0 {
      p := c + 2;
      assert ls[0..] == ls;
    } else {
      p := p';
      assert sp[2..][2 * j - 1] == sp[2 * j + 1];
    }
  }

  /** Option `j` of a hit of the option lines for `ls` from `i`, with, for
      `j > 0`, the text of option `j - 1`, which starts at `p` just past its
      label and ends at the line start `t` of option `j`. */
  lemma LemmaOptionIn(ls: string, s: string, i: nat, e: nat, sp: seq<Span>, j: nat) returns (p: nat, t: nat, m: nat, hi: nat)
    requires j < |ls| && i <= |s| && Match(Body(ls), s, i) == Some(Hit(e, sp))
    ensures 2 * j + 1 < |sp| && (j == 0 ==> t == i)
    ensures OptionLead(s, t, m, ls[j]) && sp[2 * j + 1] == Span(m + 3, hi)
    ensures FirstMatchFrom(Body(ls[j + 1..]), s, m + 3, hi)
    ensures j > 0 ==> && sp[2 * j - 1] == Span(p, t) && 3 <= p <= t <= |s|
                      && s[p - 3..p] == [ls[j - 1], ')', ' ']
                      && FirstMatchFrom(Body(ls[j..]), s, p, t)
  {
    t, m, hi := LemmaBodyOptAt(ls, s, i, e, sp, j);
    p := t;
    if j > 0 {
      p := LemmaOptionBefore(ls, s, i, e, sp, j, t);
    }
  }

  /** Before option `j > 0` of a hit of the option lines for `ls` from
      `i`: the text of option `j - 1` starts at `p`, just past its label,
      and ends at the line start `t` of option `j`. */
  lemma LemmaOptionBefore(ls: string, s: string, i: nat, e: nat, sp: seq<Span>, j: nat, t: nat) returns (p: nat)
    requires 0 < j < |ls| && i <= |s| && Match(Body(ls), s, i) == Some(Hit(e, sp))
    requires 2 * j + 1 < |sp| && sp[2 * j - 1].hi == t
    ensures sp[2 * j - 1] == Span(p, t) && 3 <= p <= t <= |s| && s[p - 3..p] == [ls[j - 1], ')', ' ']
    ensures FirstMatchFrom(Body(ls[j..]), s, p, t)
  {
    var t', m', hi' := LemmaBodyOptAt(ls, s, i, e, sp, j - 1);
    p := m' + 3;
    assert ls[j - 1 + 1..] == ls[j..];
  }

  /** Option `j` of record `k` is labelled `Labels[j]`: its line starts at
      `t`, the first position from `p` on from which the option lines from
      `Labels[j]` and the answer line match, where `p` is just past the
      question's ": " for the first option and the start of option `j - 1`'s
      text otherwise; the line holds a newline, whitespace and the label and
      ") " at `m`; its text is the stripped text from `lo`, just past the
      label, up to the first position `hi` from which the remaining option
      lines and the answer line match. `p`, `t`, `lo` and `hi` are the ends
      of run spans `2 * j + 1` and `2 * j + 3` of the hit, so the results for
      `j - 1` and `j` chain: the `lo` of one is the `p` of the next. */
  lemma LemmaMcqOption(reply: string, k: nat, j: nat) returns (p: nat, t: nat, m: nat, lo: nat, hi: nat)
    requires k < |FindAll(McqPattern, reply, 0)| && j < 4
    ensures var f := FindAll(McqPattern, reply, 0)[k];
      && |f.spans| == 11 && f.spans[2 * j + 1] == Span(p, t) && f.spans[2 * j + 3] == Span(lo, hi)
      && p <= t <= |reply| && FirstMatchFrom(Body(Labels[j..]), reply, p, t)
      && (j == 0 ==> f.start + 2 < p && AllIn(Digit, reply, f.start, p - 2) && reply[p - 2..p] == ": ")
      && (j > 0 ==> 3 <= p && reply[p - 3..p] == [Labels[j - 1], ')', ' '])
      && OptionLead(reply, t, m, Labels[j]) && lo == m + 3
      && FirstMatchFrom(Body(Labels[j + 1..]), reply, lo, hi)
    ensures |ParseMcq(reply)| == |FindAll(McqPattern, reply, 0)|
    ensures ParseMcq(reply)[k].options[j] == Choice([Labels[j]], Strip(reply[lo..hi]))
  {
    LemmaMcqCounts();
    var f := FindAll(McqPattern, reply, 0)[k];
    var q := McqPattern;
    assert q[0] == Head[0] && q[1] == Lit(": ") && q[2] == Lazy && q[3..] == Body(Labels);
    LemmaMatchSpans(q, reply, f.start);
    p, t, m, hi := LemmaOptionHit(q, Labels, reply, f.start, f.end, f.spans, j);
    lo := m + 3;
    LemmaMcqOptionSpan(reply, k, j, lo, hi);
  }
}
