/** `generateOpenEnded` after the model call: the empty-reply check and the
    regex scan that turns the reply into numbered questions with answers. */
module OpenParser {
  import opened Wrappers
  import opened Strings
  import opened Regex
  import opened Search

  /** The record built for each match: the question number read as an
      integer, the question and the answer. */
  datatype OpenQuestion = OpenQuestion(number: nat, question: string, answer: string)

  /** `(\d+)`: the question number, captured. */
  const Number: Item := Run(Digit, 1, true, true)

  /** `\s*`, not captured. */
  const Blank: Item := Run(Space, 0, true, false)

  /** `(.*?)` under DOTALL: the shortest run of any characters, captured. */
  const Text: Item := Run(AnyChar, 0, false, true)

  /** The marker in front of every answer: a check-mark emoji (U+2705) and
      " Answer:", nine characters in all. */
  const Mark: string := "\U{2705} Answer:"

  /** The number, a full stop, optional whitespace and the question
      (groups 1 and 2). */
  const QuestionLine: Pattern := [Number, Lit("."), Blank, Text]

  /** A newline, optional whitespace, the marker, optional whitespace, the
      answer (group 3), and a newline or the end of the text. */
  const AnswerLine: Pattern := [Lit("\n"), Blank, Lit(Mark), Blank, Text, LineEnd]

  /** The pattern `generateOpenEnded` compiles with DOTALL; three groups. */
  const OpenPattern: Pattern := QuestionLine + AnswerLine

  const OpenFailure: string := "Failed to generate OpenEnded questions."

  // ----- the pattern's runs and groups -----

  lemma LemmaQuestionLineCounts()
    ensures RunCount(QuestionLine) == 3 && GroupCount(QuestionLine) == 2
    ensures MinWidth(QuestionLine) == 2
  {
    var p := QuestionLine;
    assert p[1..][1..] == p[2..] && p[2..][1..] == p[3..] && p[3..][1..] == [];
    assert RunCount(p[3..]) == 1 && GroupCount(p[3..]) == 1 && MinWidth(p[3..]) == 0;
    assert RunCount(p[2..]) == 2 && GroupCount(p[2..]) == 1 && MinWidth(p[2..]) == 0;
    assert RunCount(p[1..]) == 2 && GroupCount(p[1..]) == 1 && MinWidth(p[1..]) == 1;
  }

  lemma LemmaAnswerLineCounts()
    ensures RunCount(AnswerLine) == 3 && GroupCount(AnswerLine) == 1
  {
    var p := AnswerLine;
    assert p[1..][1..] == p[2..] && p[2..][1..] == p[3..] && p[3..][1..] == p[4..];
    assert p[4..][1..] == p[5..] && p[5..][1..] == [];
    assert RunCount(p[5..]) == 0 && GroupCount(p[5..]) == 0;
    assert RunCount(p[4..]) == 1 && GroupCount(p[4..]) == 1;
    assert RunCount(p[3..]) == 2 && GroupCount(p[3..]) == 1;
    assert RunCount(p[2..]) == 2 && GroupCount(p[2..]) == 1;
    assert RunCount(p[1..]) == 3 && GroupCount(p[1..]) == 1;
  }

  /** The pattern has six runs, three of them groups, and every match
      consumes at least one character. */
  lemma LemmaOpenCounts()
    ensures RunCount(OpenPattern) == 6 && GroupCount(OpenPattern) == 3
    ensures MinWidth(OpenPattern) > 0
  {
    LemmaCountsAppend(QuestionLine, AnswerLine);
    LemmaQuestionLineCounts();
    LemmaAnswerLineCounts();
  }

  lemma LemmaQuestionLineGroups(sp: seq<Span>)
    requires |sp| == 3
    ensures RunCount(QuestionLine) == 3
    ensures Groups(QuestionLine, sp) == [sp[0], sp[2]]
  {
    LemmaQuestionLineCounts();
    var p := QuestionLine;
    assert p[1..][1..] == p[2..] && p[2..][1..] == p[3..] && p[3..][1..] == [];
    assert Groups(p[3..], sp[2..]) == [sp[2]];
    assert Groups(p[2..], sp[1..]) == [sp[2]];
    assert Groups(p[1..], sp[1..]) == [sp[2]];
  }

  lemma LemmaAnswerLineGroups(sp: seq<Span>)
    requires |sp| == 3
    ensures RunCount(AnswerLine) == 3
    ensures Groups(AnswerLine, sp) == [sp[2]]
  {
    LemmaAnswerLineCounts();
    var p := AnswerLine;
    assert p[1..][1..] == p[2..] && p[2..][1..] == p[3..] && p[3..][1..] == p[4..];
    assert p[4..][1..] == p[5..] && p[5..][1..] == [];
    assert RunCount(p[5..]) == 0 && RunCount(p[4..]) == 1;
    assert RunCount(p[3..]) == 2 && RunCount(p[2..]) == 2;
    assert Groups(p[5..], []) == [];
    assert Groups(p[4..], sp[2..]) == [sp[2]];
    assert Groups(p[3..], sp[1..]) == [sp[2]];
    assert Groups(p[2..], sp[1..]) == [sp[2]];
    assert Groups(p[1..], sp) == [sp[2]];
  }

  /** Python's group numbers on the pattern's six run spans: group 1 is the
      number (first run), group 2 the question (third run), group 3 the
      answer (sixth run). */
  lemma LemmaOpenGroups(sp: seq<Span>)
    requires |sp| == 6
    ensures RunCount(OpenPattern) == 6
    ensures Groups(OpenPattern, sp) == [sp[0], sp[2], sp[5]]
  {
    LemmaOpenCounts();
    assert sp == sp[..3] + sp[3..];
    LemmaQuestionLineGroups(sp[..3]);
    LemmaAnswerLineGroups(sp[3..]);
    LemmaGroupsAppend(QuestionLine, AnswerLine, sp[..3], sp[3..]);
  }

  // ----- the parser -----

  /** Run spans of a hit: six of them, inside the text, the first over
      decimal digits. */
  predicate OpenSpans(s: string, sp: seq<Span>) {
    && |sp| == 6 && SpansIn(s, sp)
    && AllDigits(Capture(s, sp[0]))
  }

  /** The record for the groups `num, q, a` of one match: `int(num)`, and
      the question and answer stripped. */
  function OpenRecord(s: string, g: seq<Span>): (r: OpenQuestion)
    requires |g| == 3 && SpansIn(s, g) && AllDigits(Capture(s, g[0]))
    ensures r.number < Pow10(|Capture(s, g[0])|)
    ensures Stripped(r.question) && |r.question| <= |Capture(s, g[1])|
    ensures Stripped(r.answer) && |r.answer| <= |Capture(s, g[2])|
  {
    LemmaStripShape(Capture(s, g[1]));
    LemmaStripShape(Capture(s, g[2]));
    OpenQuestion(DecimalValue(Capture(s, g[0])), Strip(Capture(s, g[1])), Strip(Capture(s, g[2])))
  }

  /** The record for one match with run spans `sp`, built from its groups
      (`LemmaOpenGroups`). */
  function OpenOf(s: string, sp: seq<Span>): (r: OpenQuestion)
    requires OpenSpans(s, sp)
    ensures Stripped(r.question) && Stripped(r.answer)
  {
    OpenRecord(s, [sp[0], sp[2], sp[5]])
  }

  /** Each entry of `fs` carries the run spans of a hit inside `s`. */
  predicate OpenHits(s: string, fs: seq<Found>) {
    forall k :: 0 <= k < |fs| ==> OpenSpans(s, fs[k].spans)
  }

  /** One record per hit, in the order of the hits. */
  function OpenRecords(s: string, fs: seq<Found>): (r: seq<OpenQuestion>)
    requires OpenHits(s, fs)
    ensures |r| == |fs|
    ensures forall k :: 0 <= k < |r| ==> Stripped(r[k].question) && Stripped(r[k].answer)
    decreases |fs|
  {
    if fs == [] then [] else [OpenOf(s, fs[0].spans)] + OpenRecords(s, fs[1..])
  }

  /** Record `k` is built from hit `k` alone. */
  lemma {:induction false} LemmaOpenRecordsAt(s: string, fs: seq<Found>, k: nat)
    requires OpenHits(s, fs) && k < |fs|
    ensures OpenSpans(s, fs[k].spans)
    ensures OpenRecords(s, fs)[k] == OpenOf(s, fs[k].spans)
    decreases k
  {
    if k > 0 {
      LemmaOpenRecordsAt(s, fs[1..], k - 1);
      assert fs[1..][k - 1] == fs[k];
    }
  }

  /** A hit's first run covers the digits it starts with. */
  lemma LemmaOpenHit(s: string, i: nat)
    requires i <= |s| && Match(OpenPattern, s, i).Some?
    ensures OpenSpans(s, Match(OpenPattern, s, i).value.spans)
    ensures Match(OpenPattern, s, i).value.spans[0].lo == i
  {
    var h := Match(OpenPattern, s, i).value;
    LemmaOpenCounts();
    LemmaMatchSpans(OpenPattern, s, i);
    assert OpenPattern[0] == Number;
    LemmaLeadRun(OpenPattern, s, i);
    var sp := h.spans[0];
    forall k | 0 <= k < |Capture(s, sp)|
      ensures IsDigit(Capture(s, sp)[k])
    {
      assert Capture(s, sp)[k] == s[sp.lo + k];
    }
  }

  /** What the scan reports are hits. */
  lemma LemmaOpenScanHits(reply: string, pos: nat)
    requires MinWidth(OpenPattern) > 0 && pos <= |reply|
    ensures OpenHits(reply, FindAll(OpenPattern, reply, pos))
  {
    var fs := FindAll(OpenPattern, reply, pos);
    forall k | 0 <= k < |fs|
      ensures OpenSpans(reply, fs[k].spans)
    {
      LemmaOpenHit(reply, fs[k].start);
    }
  }

  /** The reply parser: one record per match that `findall` reports. */
  function ParseOpen(reply: string): (r: seq<OpenQuestion>)
    ensures forall k :: 0 <= k < |r| ==> Stripped(r[k].question) && Stripped(r[k].answer)
    ensures |r| == |FindAll(OpenPattern, reply, 0)|
  {
    LemmaOpenCounts();
    LemmaOpenScanHits(reply, 0);
    OpenRecords(reply, FindAll(OpenPattern, reply, 0))
  }

  /** The records of a hit in front of other hits. */
  lemma LemmaOpenRecordsCons(s: string, f: Found, fs: seq<Found>)
    requires OpenSpans(s, f.spans) && OpenHits(s, fs)
    ensures OpenHits(s, [f] + fs)
    ensures OpenRecords(s, [f] + fs) == [OpenOf(s, f.spans)] + OpenRecords(s, fs)
  {
    var all := [f] + fs;
    forall k | 0 <= k < |all|
      ensures OpenSpans(s, all[k].spans)
    {
      if k > 0 {
        assert all[k] == fs[k - 1];
      }
    }
    assert all[1..] == fs;
  }

  /** `generateOpenEnded` once the model has replied: an absent or empty
      reply gives the error object, anything else is parsed. */
  function GenerateOpen(reply: Option<string>): (r: Generated<OpenQuestion>)
    ensures r.Failed? <==> reply.None? || reply.value == ""
    ensures r.Failed? ==> r.error == "Failed to generate OpenEnded questions."
    ensures r.Produced? ==> r.items == ParseOpen(reply.value)
  {
    if reply.None? || reply.value == "" then Failed(OpenFailure)
    else Produced(ParseOpen(reply.value))
  }

  // ----- what the records say about the reply -----

  /** A reply yields no question exactly when the pattern matches nowhere in it. */
  lemma LemmaOpenNone(reply: string)
    ensures ParseOpen(reply) == [] <==> Unmatched(OpenPattern, reply, 0, |reply| + 1)
  {
    LemmaOpenCounts();
    LemmaFindAllEmpty(OpenPattern, reply, 0);
  }

  /** A hit of the question line in front of `next`: the number's digits
      up to a full stop, whitespace, then the question, which ends at the
      first position from which `next` matches. */
  lemma LemmaQuestionLineHit(next: Pattern, s: string, i: nat) returns (u: nat)
    requires i <= |s| && Match(QuestionLine + next, s, i).Some?
    ensures var h := Match(QuestionLine + next, s, i).value;
      && |h.spans| >= 3 && h.spans[0] == Span(i, u)
      && i < u < |s| && s[u] == '.' && AllIn(Digit, s, i, u)
      && h.spans[1].lo == u + 1 <= h.spans[1].hi <= |s|
      && AllIn(Space, s, h.spans[1].lo, h.spans[1].hi)
      && h.spans[2].lo == h.spans[1].hi <= h.spans[2].hi <= |s|
      && Match(next, s, h.spans[2].hi) == Some(Hit(h.end, h.spans[3..]))
      && (forall v :: h.spans[2].lo <= v < h.spans[2].hi ==> Match(next, s, v).None?)
      && (h.spans[1].hi < |s| && IsSpace(s[h.spans[1].hi]) ==>
            forall v :: h.spans[1].hi < v <= |s| ==> Match(next, s, v).None?)
  {
    var q := QuestionLine + next;
    assert q[0] == Number && q[1] == Lit(".") && q[2] == Blank && q[3] == Text && q[4..] == next;
    u := LemmaQuestionHit(q, next, s, i);
  }

  /** The same for any pattern laid out as the question line and `next`. */
  lemma LemmaQuestionHit(q: Pattern, next: Pattern, s: string, i: nat) returns (u: nat)
    requires |q| >= 4 && q[0] == Number && q[1] == Lit(".") && q[2] == Blank && q[3] == Text
    requires q[4..] == next
    requires i <= |s| && Match(q, s, i).Some?
    ensures var h := Match(q, s, i).value;
      && |h.spans| >= 3 && h.spans[0] == Span(i, u)
      && i < u < |s| && s[u] == '.' && AllIn(Digit, s, i, u)
      && h.spans[1].lo == u + 1 <= h.spans[1].hi <= |s|
      && AllIn(Space, s, h.spans[1].lo, h.spans[1].hi)
      && h.spans[2].lo == h.spans[1].hi <= h.spans[2].hi <= |s|
      && Match(next, s, h.spans[2].hi) == Some(Hit(h.end, h.spans[3..]))
      && (forall v :: h.spans[2].lo <= v < h.spans[2].hi ==> Match(next, s, v).None?)
      && (h.spans[1].hi < |s| && IsSpace(s[h.spans[1].hi]) ==>
            forall v :: h.spans[1].hi < v <= |s| ==> Match(next, s, v).None?)
  {
    var h := Match(q, s, i).value;
    assert q[1..][0] == Lit(".") && q[1..][1..] == q[2..];
    assert q[2..][0] == Blank && q[2..][1..] == q[3..];
    assert q[3..][0] == Text && q[3..][1..] == next;
    LemmaRunStep(q, s, i);
    u := h.spans[0].hi;
    LemmaDotStep(q[1..], s, u);
    LemmaRunStep(q[2..], s, u + 1);
    var b := h.spans[1].hi;
    LemmaLazyEnd(q[3..], s, b);
    assert h.spans[1..][1..] == h.spans[2..] && h.spans[2..][1..] == h.spans[3..];
    LemmaQuestionBlank(q, next, s, i);
  }

  /** The `\s*` run after the full stop stops before a whitespace character
      only when no answer line follows from anywhere after it. */
  lemma LemmaQuestionBlank(q: Pattern, next: Pattern, s: string, i: nat)
    requires |q| >= 4 && q[0] == Number && q[1] == Lit(".") && q[2] == Blank && q[3] == Text
    requires q[4..] == next
    requires i <= |s| && Match(q, s, i).Some?
    ensures var h := Match(q, s, i).value;
      && |h.spans| >= 2 && h.spans[1].hi <= |s|
      && (h.spans[1].hi < |s| && IsSpace(s[h.spans[1].hi]) ==>
            forall v :: h.spans[1].hi < v <= |s| ==> Match(next, s, v).None?)
  {
    var h := Match(q, s, i).value;
    assert q[1..][0] == Lit(".") && q[1..][1..] == q[2..];
    assert q[2..][2..] == next;
    LemmaRunStep(q, s, i);
    var u := h.spans[0].hi;
    LemmaDotStep(q[1..], s, u);
    assert Match(q[2..], s, u + 1) == Some(Hit(h.end, h.spans[1..]));
    LemmaBlankStop(q[2..], s, u + 1);
  }

  /** When `\s*` stops before a whitespace character, the question and an
      answer line cannot follow from anywhere after it. */
  lemma LemmaBlankStop(r: Pattern, s: string, x: nat)
    requires |r| >= 2 && r[0] == Blank && r[1] == Text
    requires x <= |s| && Match(r, s, x).Some?
    ensures var a := Match(r, s, x).value.spans[0].hi;
      a <= |s| && (a < |s| && IsSpace(s[a]) ==> forall v :: a < v <= |s| ==> Match(r[2..], s, v).None?)
  {
    LemmaGreedyEnd(r, s, x);
    var a := Match(r, s, x).value.spans[0].hi;
    if a < |s| && IsSpace(s[a]) {
      assert r[1..][0] == Text && r[1..][1..] == r[2..];
      LemmaLazyNone(r[1..], s, a + 1);
    }
  }

  /** A full stop at the head of a hit from `u`: the text holds it at `u`,
      and the rest of the pattern takes the hit from `u + 1`. */
  lemma LemmaDotStep(r: Pattern, s: string, u: nat)
    requires |r| > 0 && r[0] == Lit(".") && u <= |s| && Match(r, s, u).Some?
    ensures u < |s| && s[u] == '.'
    ensures Match(r[1..], s, u + 1) == Match(r, s, u)
  {
    LemmaLitStep(r, s, u);
    assert s[u] == s[u..u + 1][0];
  }

  /** A hit of the answer line from `t`: a newline, whitespace up to the
      marker at `m`, whitespace, then the answer, which runs to the first
      newline (that newline ends the hit) or to the end of the text. */
  lemma LemmaAnswerLineHit(s: string, t: nat, e: nat, sp: seq<Span>) returns (m: nat)
    requires t <= |s| && Match(AnswerLine, s, t) == Some(Hit(e, sp))
    ensures |sp| == 3 && t < |s| && s[t] == '\n'
    ensures sp[0] == Span(t + 1, m) && t + 1 <= m && m + 9 <= |s| && s[m..m + 9] == Mark
    ensures AllIn(Space, s, t + 1, m)
    ensures sp[1].lo == m + 9 <= sp[1].hi == sp[2].lo <= sp[2].hi <= |s|
    ensures AllIn(Space, s, sp[1].lo, sp[1].hi)
    ensures forall v :: sp[2].lo <= v < sp[2].hi ==> s[v] != '\n'
    ensures || (sp[2].hi < |s| && s[sp[2].hi] == '\n' && e == sp[2].hi + 1)
            || (sp[2].hi == |s| && e == |s|)
  {
    assert |Mark| == 9;
    var q := AnswerLine;
    assert |q| == 6 && q[0] == Lit("\n") && q[1] == Blank && q[2] == Lit(Mark);
    assert q[3] == Blank && q[4] == Text && q[5] == LineEnd;
    m := LemmaAnswerShapeHit(q, Mark, s, t, e, sp);
  }

  /** The same for any pattern laid out as the answer line, with any
      nine-character marker. */
  lemma LemmaAnswerShapeHit(q: Pattern, mark: string, s: string, t: nat, e: nat, sp: seq<Span>) returns (m: nat)
    requires |mark| == 9
    requires |q| == 6 && q[0] == Lit("\n") && q[1] == Blank && q[2] == Lit(mark)
    requires q[3] == Blank && q[4] == Text && q[5] == LineEnd
    requires t <= |s| && Match(q, s, t) == Some(Hit(e, sp))
    ensures |sp| == 3 && t < |s| && s[t] == '\n'
    ensures sp[0] == Span(t + 1, m) && t + 1 <= m && m + 9 <= |s| && s[m..m + 9] == mark
    ensures AllIn(Space, s, t + 1, m)
    ensures sp[1].lo == m + 9 <= sp[1].hi == sp[2].lo <= sp[2].hi <= |s|
    ensures AllIn(Space, s, sp[1].lo, sp[1].hi)
    ensures forall v :: sp[2].lo <= v < sp[2].hi ==> s[v] != '\n'
    ensures || (sp[2].hi < |s| && s[sp[2].hi] == '\n' && e == sp[2].hi + 1)
            || (sp[2].hi == |s| && e == |s|)
  {
    m := LemmaMarkHit(q, mark, s, t, e, sp);
    LemmaAnswerRest(q, s, m + 9, e, sp);
  }

  /** The newline, whitespace and marker that open any pattern laid out as
      the answer line, with any nine-character marker. */
  lemma LemmaMarkHit(q: Pattern, mark: string, s: string, t: nat, e: nat, sp: seq<Span>) returns (m: nat)
    requires |mark| == 9
    requires |q| == 6 && q[0] == Lit("\n") && q[1] == Blank && q[2] == Lit(mark)
    requires t <= |s| && Match(q, s, t) == Some(Hit(e, sp))
    ensures |sp| > 0 && t < |s| && s[t] == '\n'
    ensures sp[0] == Span(t + 1, m) && t + 1 <= m && m + 9 <= |s| && s[m..m + 9] == mark
    ensures AllIn(Space, s, t + 1, m)
    ensures Match(q[3..], s, m + 9) == Some(Hit(e, sp[1..]))
  {
    m := LemmaNewlineBlank(q, s, t, e, sp);
    var r := q[2..];
    assert r[0] == Lit(mark) && r[1..] == q[3..];
    LemmaLitStep(r, s, m);
  }

  /** A newline and whitespace at the head of a hit from `t`: the
      whitespace run spans `t + 1` to `m`, and the rest of the pattern takes
      the hit from `m`. */
  lemma LemmaNewlineBlank(q: Pattern, s: string, t: nat, e: nat, sp: seq<Span>) returns (m: nat)
    requires |q| >= 2 && q[0] == Lit("\n") && q[1] == Blank
    requires t <= |s| && Match(q, s, t) == Some(Hit(e, sp))
    ensures |sp| > 0 && t < |s| && s[t] == '\n'
    ensures sp[0] == Span(t + 1, m) && t + 1 <= m <= |s|
    ensures AllIn(Space, s, t + 1, m)
    ensures Match(q[2..], s, m) == Some(Hit(e, sp[1..]))
  {
    LemmaLitStep(q, s, t);
    assert s[t] == s[t..t + 1][0];
    var r := q[1..];
    assert r[0] == Blank && r[1..] == q[2..];
    LemmaRunStep(r, s, t + 1);
    m := sp[0].hi;
  }

  /** Whitespace after the marker, then the answer up to the first newline
      or the end of the text: the last two runs of the answer line. */
  lemma LemmaAnswerRest(q: Pattern, s: string, j: nat, e: nat, sp: seq<Span>)
    requires |q| == 6 && q[3] == Blank && q[4] == Text && q[5] == LineEnd
    requires |sp| > 0 && j <= |s| && Match(q[3..], s, j) == Some(Hit(e, sp[1..]))
    ensures |sp| == 3 && sp[1].lo == j <= sp[1].hi == sp[2].lo <= sp[2].hi <= |s|
    ensures AllIn(Space, s, sp[1].lo, sp[1].hi)
    ensures forall v :: sp[2].lo <= v < sp[2].hi ==> s[v] != '\n'
    ensures || (sp[2].hi < |s| && s[sp[2].hi] == '\n' && e == sp[2].hi + 1)
            || (sp[2].hi == |s| && e == |s|)
  {
    var r := q[3..];
    assert r[0] == Blank && r[1..][0] == Text && r[1..][1..] == [LineEnd];
    LemmaRunStep(r, s, j);
    var w := sp[1..][0];
    LemmaLazyEnd(r[1..], s, w.hi);
    assert sp[1..][1..] == sp[2..];
    assert sp[2..][1..] == [];
    LemmaLineEndAt(s, sp[2].lo, sp[2].hi, e);
  }

  /** `(?:\n|$)` fails before the first newline and, where it holds, takes
      that newline or stands at the end of the text. */
  lemma LemmaLineEndAt(s: string, lo: nat, hi: nat, e: nat)
    requires lo <= hi <= |s|
    requires forall v :: lo <= v < hi ==> Match([LineEnd], s, v).None?
    requires Match([LineEnd], s, hi) == Some(Hit(e, []))
    ensures forall v :: lo <= v < hi ==> s[v] != '\n'
    ensures || (hi < |s| && s[hi] == '\n' && e == hi + 1)
            || (hi == |s| && e == |s|)
  {
    forall v | lo <= v < hi
      ensures s[v] != '\n'
    {
      assert Match([LineEnd], s, v).None?;
      assert [LineEnd][1..] == [];
    }
    assert [LineEnd][1..] == [];
  }

  // ----- reading the fields of a hit -----

  /** A hit of the whole pattern: the number's digits up to a full stop,
      whitespace, the question up to the first position where an answer
      line matches, and that answer line. */
  lemma LemmaOpenQuestionHit(s: string, i: nat, e: nat, sp: seq<Span>)
    requires i <= |s| && Match(OpenPattern, s, i) == Some(Hit(e, sp))
    ensures |sp| == 6 && sp[0].lo == i < sp[0].hi < |s| && s[sp[0].hi] == '.'
    ensures AllIn(Digit, s, i, sp[0].hi)
    ensures sp[1].lo == sp[0].hi + 1 <= sp[1].hi == sp[2].lo <= sp[2].hi <= |s|
    ensures AllIn(Space, s, sp[1].lo, sp[1].hi)
    ensures Match(AnswerLine, s, sp[2].hi) == Some(Hit(e, sp[3..]))
    ensures forall v :: sp[2].lo <= v < sp[2].hi ==> Match(AnswerLine, s, v).None?
    ensures sp[1].hi < |s| && IsSpace(s[sp[1].hi]) ==>
      forall v :: sp[1].hi < v <= |s| ==> Match(AnswerLine, s, v).None?
  {
    LemmaOpenCounts();
    LemmaMatchSpans(OpenPattern, s, i);
    var u := LemmaQuestionLineHit(AnswerLine, s, i);
  }

  /** The answer of a hit follows the newline at `b` that ends the
      question, whitespace, the marker at `m` and whitespace: it runs from
      `lo` to the first newline, which ends the hit, or to the end of the
      text. */
  lemma LemmaOpenAnswerHit(s: string, i: nat, e: nat, sp: seq<Span>) returns (b: nat, m: nat, lo: nat, hi: nat)
    requires i <= |s| && Match(OpenPattern, s, i) == Some(Hit(e, sp))
    ensures |sp| == 6 && sp[2].hi == b && sp[5] == Span(lo, hi)
    ensures i < b < m && m + 9 <= lo <= hi <= |s|
    ensures s[b] == '\n' && AllIn(Space, s, b + 1, m)
    ensures s[m..m + 9] == Mark && AllIn(Space, s, m + 9, lo)
    ensures forall v :: lo <= v < hi ==> s[v] != '\n'
    ensures || (hi < |s| && s[hi] == '\n' && e == hi + 1)
            || (hi == |s| && e == |s|)
  {
    LemmaOpenQuestionHit(s, i, e, sp);
    b := sp[2].hi;
    m := LemmaAnswerLineHit(s, b, e, sp[3..]);
    assert sp[3..][0] == sp[3] && sp[3..][1] == sp[4] && sp[3..][2] == sp[5];
    lo := sp[5].lo;
    hi := sp[5].hi;
  }

  /** Record `k` is read from the groups of hit `k`: `int()` of the digits,
      the question and the answer stripped. */
  lemma LemmaOpenFields(reply: string, k: nat, sp: seq<Span>)
    requires k < |FindAll(OpenPattern, reply, 0)| && FindAll(OpenPattern, reply, 0)[k].spans == sp
    ensures OpenSpans(reply, sp) && |ParseOpen(reply)| == |FindAll(OpenPattern, reply, 0)|
    ensures ParseOpen(reply)[k] == OpenQuestion(DecimalValue(Capture(reply, sp[0])),
      Strip(Capture(reply, sp[2])), Strip(Capture(reply, sp[5])))
  {
    LemmaOpenCounts();
    LemmaOpenScanHits(reply, 0);
    LemmaOpenRecordsAt(reply, FindAll(OpenPattern, reply, 0), k);
    LemmaOpenGroups(sp);
  }

  /** The number of record `k` is `int()` of the digits its hit starts
      with, which a full stop follows. */
  lemma LemmaOpenNumber(reply: string, k: nat) returns (u: nat)
    requires k < |FindAll(OpenPattern, reply, 0)|
    ensures var f := FindAll(OpenPattern, reply, 0)[k];
      && f.start < u < |reply| && reply[u] == '.' && AllDigits(reply[f.start..u])
      && |ParseOpen(reply)| == |FindAll(OpenPattern, reply, 0)|
      && ParseOpen(reply)[k].number == DecimalValue(reply[f.start..u])
  {
    LemmaOpenCounts();
    var f := FindAll(OpenPattern, reply, 0)[k];
    LemmaOpenQuestionHit(reply, f.start, f.end, f.spans);
    LemmaOpenFields(reply, k, f.spans);
    u := f.spans[0].hi;
  }

  /** The layout of the question part of a hit from `i`: the digits from
      `i` end at the full stop at `u`; the greedy `\s*` takes the whitespace
      from `u + 1` to `a`, and it stops before more whitespace only when no
      answer line follows from anywhere after `a`; the question runs from `a`
      to the first position `b` from which an answer line matches, and the
      newline at `b` starts that answer line. */
  predicate QuestionAt(s: string, i: nat, u: nat, a: nat, b: nat) {
    && i < u < a <= b < |s|
    && s[u] == '.' && AllDigits(s[i..u]) && AllIn(Space, s, u + 1, a)
    && (!IsSpace(s[a]) || forall v :: a < v <= |s| ==> Match(AnswerLine, s, v).None?)
    && s[b] == '\n' && Match(AnswerLine, s, b).Some?
    && (forall v :: a <= v < b ==> Match(AnswerLine, s, v).None?)
  }

  /** The layout fixes the three positions: from a given start there is
      one reading of the question part at most. */
  lemma LemmaQuestionAtUnique(s: string, i: nat, u: nat, a: nat, b: nat, u': nat, a': nat, b': nat)
    requires QuestionAt(s, i, u, a, b) && QuestionAt(s, i, u', a', b')
    ensures u == u' && a == a' && b == b'
  {
  }

  /** The question part of the hit of record `k`: its question is the
      stripped text from `a`, or from just past the full stop at `u`, up to
      `b`. */
  lemma LemmaOpenQuestion(reply: string, k: nat) returns (u: nat, a: nat, b: nat)
    requires k < |FindAll(OpenPattern, reply, 0)|
    ensures var f := FindAll(OpenPattern, reply, 0)[k];
      && QuestionAt(reply, f.start, u, a, b)
      && |ParseOpen(reply)| == |FindAll(OpenPattern, reply, 0)|
      && ParseOpen(reply)[k].question == Strip(reply[a..b])
      && ParseOpen(reply)[k].question == Strip(reply[u + 1..b])
  {
    LemmaOpenCounts();
    var f := FindAll(OpenPattern, reply, 0)[k];
    u, a, b := LemmaQuestionAtHit(reply, f.start, f.end, f.spans);
    LemmaOpenFields(reply, k, f.spans);
    LemmaSkipBlank(reply, u + 1, a, b);
  }

  /** The positions of `QuestionAt` are the hit's first three run spans. */
  lemma LemmaQuestionAtHit(s: string, i: nat, e: nat, sp: seq<Span>) returns (u: nat, a: nat, b: nat)
    requires i <= |s| && Match(OpenPattern, s, i) == Some(Hit(e, sp))
    ensures |sp| == 6 && sp[0] == Span(i, u) && sp[1] == Span(u + 1, a) && sp[2] == Span(a, b)
    ensures QuestionAt(s, i, u, a, b)
  {
    LemmaOpenQuestionHit(s, i, e, sp);
    u := sp[0].hi;
    a := sp[2].lo;
    b := sp[2].hi;
    var m := LemmaAnswerLineHit(s, b, e, sp[3..]);
    assert AllDigits(s[i..u]) by {
      forall k | 0 <= k < u - i ensures IsDigit(s[i..u][k]) {
        assert s[i..u][k] == s[i + k];
      }
    }
  }

  /** The layout of the answer part of a hit that ends at `e`, after the
      newline at `b` that ends the question: whitespace, the marker at `m`,
      whitespace up to `lo`, and the answer from `lo` to the first newline,
      which ends the hit, or to the end of the text. */
  predicate AnswerAt(s: string, b: nat, m: nat, lo: nat, hi: nat, e: nat) {
    && b < m && m + 9 <= lo <= hi <= |s|
    && AllIn(Space, s, b + 1, m)
    && s[m..m + 9] == Mark && AllIn(Space, s, m + 9, lo)
    && (forall v :: lo <= v < hi ==> s[v] != '\n')
    && (|| (hi < |s| && s[hi] == '\n' && e == hi + 1)
        || (hi == |s| && e == |s|))
  }

  /** The positions of `QuestionAt` and `AnswerAt` in a hit; the answer
      is the hit's last span. */
  lemma LemmaAnswerAtHit(s: string, i: nat, e: nat, sp: seq<Span>) returns (u: nat, a: nat, b: nat, m: nat, lo: nat, hi: nat)
    requires i <= |s| && Match(OpenPattern, s, i) == Some(Hit(e, sp))
    ensures |sp| == 6 && sp[5] == Span(lo, hi)
    ensures QuestionAt(s, i, u, a, b) && AnswerAt(s, b, m, lo, hi, e)
    ensures Strip(Capture(s, sp[5])) == Strip(s[lo..hi]) == Strip(s[m + 9..hi])
  {
    u, a, b := LemmaQuestionAtHit(s, i, e, sp);
    var b';
    b', m, lo, hi := LemmaOpenAnswerHit(s, i, e, sp);
    assert b' == b;
    assert Strip(s[m + 9..hi]) == Strip(s[lo..hi]) by {
      LemmaSkipBlank(s, m + 9, lo, hi);
    }
  }

  /** The answer of record `k` follows the question part of its hit: it is
      the stripped text from `lo`, or from just past the marker, to the end
      of the answer line. */
  lemma LemmaOpenAnswer(reply: string, k: nat) returns (u: nat, a: nat, b: nat, m: nat, lo: nat, hi: nat)
    requires k < |FindAll(OpenPattern, reply, 0)|
    ensures var f := FindAll(OpenPattern, reply, 0)[k];
      && QuestionAt(reply, f.start, u, a, b)
      && AnswerAt(reply, b, m, lo, hi, f.end)
    ensures |ParseOpen(reply)| == |FindAll(OpenPattern, reply, 0)|
    ensures ParseOpen(reply)[k].answer == Strip(reply[lo..hi])
    ensures ParseOpen(reply)[k].answer == Strip(reply[m + 9..hi])
  {
    LemmaOpenCounts();
    var f := FindAll(OpenPattern, reply, 0)[k];
    var sp := f.spans;
    u, a, b, m, lo, hi := LemmaAnswerAtHit(reply, f.start, f.end, sp);
    LemmaOpenFields(reply, k, sp);
  }

  /** The marker's position is fixed by the newline in front of it: it is
      the first character after the whitespace that follows. */
  lemma LemmaMarkUnique(s: string, b: nat, m: nat, m': nat)
    requires b < m <= |s| && b < m' <= |s| && AllIn(Space, s, b + 1, m) && AllIn(Space, s, b + 1, m')
    requires m + 9 <= |s| && s[m..m + 9] == Mark && m' + 9 <= |s| && s[m'..m' + 9] == Mark
    ensures m == m'
  {
    assert s[m] == s[m..m + 9][0] && s[m'] == s[m'..m' + 9][0];
    assert !IsSpace(Mark[0]);
  }

  /** What a `\s*` run from `x` to `a` takes, `strip()` drops as well. */
  lemma LemmaSkipBlank(s: string, x: nat, a: nat, b: nat)
    requires x <= a <= b <= |s| && AllIn(Space, s, x, a)
    ensures Strip(s[x..b]) == Strip(s[a..b])
  {
    forall k | 0 <= k < a - x ensures IsSpace(s[x..a][k]) {
      assert s[x..a][k] == s[x + k];
    }
    LemmaStripSkip(s, x, a, b);
  }
}
