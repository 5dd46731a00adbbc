/** The fragment of Python's `re` engine that the two parsers use: literal
    text, the classes `\d`, `\s` and `.` (with DOTALL) repeated greedily
    (`+`, `*`) or lazily (`*?`), capturing groups, and the alternation
    `(?:\n|$)`. Matching is backtracking in Python's priority order: a greedy
    run first tries its longest length, a lazy run its shortest, and an
    alternation its left branch; the first complete match wins. */
module Regex {
  import opened Wrappers
  import opened Strings

  datatype CharClass = Digit | Space | AnyChar

  /** `\d` (ASCII digits), `\s` (Python whitespace) and `.` under DOTALL. */
  predicate InClass(cls: CharClass, c: char) {
    match cls
    case Digit => IsDigit(c)
    case Space => IsSpace(c)
    case AnyChar => true
  }

  /** One pattern element.
      `Lit(t)`: the literal text `t`.
      `Run(cls, min, greedy, group)`: at least `min` characters of `cls`,
      greedy (`*`, `+`) or lazy (`*?`), captured when `group` holds.
      `LineEnd`: the non-capturing alternation `(?:\n|$)`. */
  datatype Item =
    | Lit(lit: string)
    | Run(cls: CharClass, min: nat, greedy: bool, group: bool)
    | LineEnd

  type Pattern = seq<Item>

  /** The characters `lo .. hi` matched by one run. */
  datatype Span = Span(lo: nat, hi: nat)

  /** A successful match: where it ends, and one span per run, in order. */
  datatype Hit = Hit(end: nat, spans: seq<Span>)

  /** `$` without MULTILINE: the end of the text, or just before a final newline. */
  predicate AtEnd(s: string, i: nat) {
    i == |s| || (i + 1 == |s| && s[i] == '\n')
  }

  predicate AllIn(cls: CharClass, s: string, lo: nat, hi: nat)
    requires lo <= hi <= |s|
  {
    forall k :: lo <= k < hi ==> InClass(cls, s[k])
  }

  /** The fewest characters any match of `p` consumes. */
  function MinWidth(p: Pattern): nat {
    if |p| == 0 then 0
    else
      (match p[0]
       case Lit(t) => |t|
       case Run(_, min, _, _) => min
       case LineEnd => 0)
      + MinWidth(p[1..])
  }

  function RunCount(p: Pattern): nat {
    if |p| == 0 then 0 else (if p[0].Run? then 1 else 0) + RunCount(p[1..])
  }

  /** The end of the longest run of `cls` characters starting at `i`. */
  function RunEnd(cls: CharClass, s: string, i: nat): (j: nat)
    requires i <= |s|
    ensures i <= j <= |s|
    ensures AllIn(cls, s, i, j)
    ensures j < |s| ==> !InClass(cls, s[j])
    decreases |s| - i
  {
    if i < |s| && InClass(cls, s[i]) then RunEnd(cls, s, i + 1) else i
  }

  /** A run of class characters from `i` to `j` is inside the maximal run. */
  lemma {:induction false} LemmaRunEndCovers(cls: CharClass, s: string, i: nat, j: nat)
    requires i <= j <= |s| && AllIn(cls, s, i, j)
    ensures j <= RunEnd(cls, s, i)
    decreases j - i
  {
    if i < j {
      LemmaRunEndCovers(cls, s, i + 1, j);
    }
  }

  /** A run of class characters that is followed by a non-class character
      (or the end) is the maximal run. */
  lemma {:induction false} LemmaRunEndExact(cls: CharClass, s: string, i: nat, j: nat)
    requires i <= j <= |s| && AllIn(cls, s, i, j)
    requires j == |s| || !InClass(cls, s[j])
    ensures RunEnd(cls, s, i) == j
    decreases j - i
  {
    if i < j {
      LemmaRunEndExact(cls, s, i + 1, j);
    }
  }

  /** Reference semantics: `p` matches `s[i..e]` with the runs covering
      exactly `spans`. This says which matches exist, not which one Python
      picks. */
  predicate Accepts(p: Pattern, s: string, i: nat, e: nat, spans: seq<Span>)
    decreases |p|
  {
    if |p| == 0 then i == e <= |s| && spans == []
    else
      match p[0]
      case Lit(t) =>
        i + |t| <= |s| && s[i..i + |t|] == t && Accepts(p[1..], s, i + |t|, e, spans)
      case LineEnd =>
        || (i < |s| && s[i] == '\n' && Accepts(p[1..], s, i + 1, e, spans))
        || (AtEnd(s, i) && Accepts(p[1..], s, i, e, spans))
      case Run(cls, min, _, _) =>
        && |spans| > 0 && spans[0].lo == i && i + min <= spans[0].hi <= |s|
        && AllIn(cls, s, i, spans[0].hi)
        && Accepts(p[1..], s, spans[0].hi, e, spans[1..])
  }

  /** Python's `pattern.match(s, i)`: the first match of `p` anchored at `i`
      in backtracking order. */
  function Match(p: Pattern, s: string, i: nat): (r: Option<Hit>)
    requires i <= |s|
    ensures r.Some? ==> i + MinWidth(p) <= r.value.end <= |s|
    decreases |p|, 2, 0
  {
    if |p| == 0 then Some(Hit(i, []))
    else
      match p[0]
      case Lit(t) =>
        if i + |t| <= |s| && s[i..i + |t|] == t then Match(p[1..], s, i + |t|) else None
      case LineEnd =>
        if i < |s| && s[i] == '\n' && Match(p[1..], s, i + 1).Some? then Match(p[1..], s, i + 1)
        else if AtEnd(s, i) then Match(p[1..], s, i)
        else None
      case Run(cls, min, greedy, _) =>
        var j := RunEnd(cls, s, i);
        if j < i + min then None
        else if greedy then Longest(p[1..], s, i, i + min, j)
        else Shortest(p[1..], s, i, i + min, j)
  }

  /** A greedy run starting at `i`: tries the run ends `k, k-1, .., lo` and
      keeps the first for which the rest of the pattern matches. The chosen
      end is the largest that works. */
  function Longest(rest: Pattern, s: string, i: nat, lo: nat, k: nat): (r: Option<Hit>)
    requires i <= lo <= k <= |s|
    ensures r.Some? ==>
      && |r.value.spans| > 0 && r.value.spans[0].lo == i
      && lo <= r.value.spans[0].hi <= k
      && Match(rest, s, r.value.spans[0].hi) == Some(Hit(r.value.end, r.value.spans[1..]))
    decreases |rest| + 1, 1, k - lo
  {
    var m := Match(rest, s, k);
    if m.Some? then
      var h := Hit(m.value.end, [Span(i, k)] + m.value.spans);
      assert h.spans[1..] == m.value.spans;
      Some(h)
    else if k == lo then None
    else Longest(rest, s, i, lo, k - 1)
  }

  /** A lazy run starting at `i`: tries the run ends `k, k+1, .., hi` and
      keeps the first for which the rest of the pattern matches. The chosen
      end is the smallest that works. */
  function Shortest(rest: Pattern, s: string, i: nat, k: nat, hi: nat): (r: Option<Hit>)
    requires i <= k <= hi <= |s|
    ensures r.Some? ==>
      && |r.value.spans| > 0 && r.value.spans[0].lo == i
      && k <= r.value.spans[0].hi <= hi
      && Match(rest, s, r.value.spans[0].hi) == Some(Hit(r.value.end, r.value.spans[1..]))
    decreases |rest| + 1, 1, hi - k
  {
    var m := Match(rest, s, k);
    if m.Some? then
      var h := Hit(m.value.end, [Span(i, k)] + m.value.spans);
      assert h.spans[1..] == m.value.spans;
      Some(h)
    else if k == hi then None
    else Shortest(rest, s, i, k + 1, hi)
  }

  /** Greedy priority: the run end chosen is the largest in `lo .. k` for
      which the rest of the pattern matches, and the search fails only when
      no end in `lo .. k` works. */
  lemma LemmaLongestPriority(rest: Pattern, s: string, i: nat, lo: nat, k: nat)
    requires i <= lo <= k <= |s|
    ensures Longest(rest, s, i, lo, k).Some? ==>
      forall t :: Longest(rest, s, i, lo, k).value.spans[0].hi < t <= k ==> Match(rest, s, t).None?
    ensures Longest(rest, s, i, lo, k).None? ==> forall t :: lo <= t <= k ==> Match(rest, s, t).None?
    ensures (forall t :: lo <= t <= k ==> Match(rest, s, t).None?) ==> Longest(rest, s, i, lo, k).None?
  {
    if Longest(rest, s, i, lo, k).Some? {
      LemmaLongestAfter(rest, s, i, lo, k);
    } else {
      LemmaLongestNone(rest, s, i, lo, k);
    }
  }

  /** No end after the chosen one lets the rest match. */
  lemma {:induction false} LemmaLongestAfter(rest: Pattern, s: string, i: nat, lo: nat, k: nat)
    requires i <= lo <= k <= |s| && Longest(rest, s, i, lo, k).Some?
    ensures forall t :: Longest(rest, s, i, lo, k).value.spans[0].hi < t <= k ==> Match(rest, s, t).None?
    decreases k - lo
  {
    var e := Longest(rest, s, i, lo, k).value.spans[0].hi;
    if Match(rest, s, k).None? {
      assert lo < k;
      assert Longest(rest, s, i, lo, k) == Longest(rest, s, i, lo, k - 1);
      LemmaLongestAfter(rest, s, i, lo, k - 1);
      forall t | e < t <= k ensures Match(rest, s, t).None? {
        if t < k {
          assert e < t <= k - 1;
        }
      }
    } else {
      assert e == k;
    }
  }

  lemma {:induction false} LemmaLongestNone(rest: Pattern, s: string, i: nat, lo: nat, k: nat)
    requires i <= lo <= k <= |s| && Longest(rest, s, i, lo, k).None?
    ensures forall t :: lo <= t <= k ==> Match(rest, s, t).None?
    decreases k - lo
  {
    if k > lo {
      LemmaLongestNone(rest, s, i, lo, k - 1);
    }
  }

  /** Some end in `lo .. k` lets the rest match, so the greedy search succeeds. */
  lemma {:induction false} LemmaLongestFinds(rest: Pattern, s: string, i: nat, lo: nat, k: nat, t: nat)
    requires i <= lo <= t <= k <= |s| && Match(rest, s, t).Some?
    ensures Longest(rest, s, i, lo, k).Some?
    decreases k - lo
  {
    if Match(rest, s, k).None? {
      LemmaLongestFinds(rest, s, i, lo, k - 1, t);
    }
  }

  /** Lazy priority: the run end chosen is the smallest in `k .. hi` for
      which the rest of the pattern matches, and the search fails only when
      no end in `k .. hi` works. */
  lemma LemmaShortestPriority(rest: Pattern, s: string, i: nat, k: nat, hi: nat)
    requires i <= k <= hi <= |s|
    ensures Shortest(rest, s, i, k, hi).Some? ==>
      forall t :: k <= t < Shortest(rest, s, i, k, hi).value.spans[0].hi ==> Match(rest, s, t).None?
    ensures Shortest(rest, s, i, k, hi).None? ==> forall t :: k <= t <= hi ==> Match(rest, s, t).None?
    ensures (forall t :: k <= t <= hi ==> Match(rest, s, t).None?) ==> Shortest(rest, s, i, k, hi).None?
  {
    if Shortest(rest, s, i, k, hi).Some? {
      LemmaShortestBefore(rest, s, i, k, hi);
    } else {
      LemmaShortestNone(rest, s, i, k, hi);
    }
  }

  /** No end before the chosen one lets the rest match. */
  lemma {:induction false} LemmaShortestBefore(rest: Pattern, s: string, i: nat, k: nat, hi: nat)
    requires i <= k <= hi <= |s| && Shortest(rest, s, i, k, hi).Some?
    ensures forall t :: k <= t < Shortest(rest, s, i, k, hi).value.spans[0].hi ==> Match(rest, s, t).None?
    decreases hi - k
  {
    var e := Shortest(rest, s, i, k, hi).value.spans[0].hi;
    if Match(rest, s, k).None? {
      assert k < hi;
      assert Shortest(rest, s, i, k, hi) == Shortest(rest, s, i, k + 1, hi);
      LemmaShortestBefore(rest, s, i, k + 1, hi);
      forall t | k <= t < e ensures Match(rest, s, t).None? {
        if t > k {
          assert k + 1 <= t < e;
        }
      }
    } else {
      assert e == k;
    }
  }

  lemma {:induction false} LemmaShortestNone(rest: Pattern, s: string, i: nat, k: nat, hi: nat)
    requires i <= k <= hi <= |s| && Shortest(rest, s, i, k, hi).None?
    ensures forall t :: k <= t <= hi ==> Match(rest, s, t).None?
    decreases hi - k
  {
    if k < hi {
      LemmaShortestNone(rest, s, i, k + 1, hi);
    }
  }

  /** Some end in `k .. hi` lets the rest match, so the lazy search succeeds. */
  lemma {:induction false} LemmaShortestFinds(rest: Pattern, s: string, i: nat, k: nat, hi: nat, t: nat)
    requires i <= k <= t <= hi <= |s| && Match(rest, s, t).Some?
    ensures Shortest(rest, s, i, k, hi).Some?
    decreases hi - k
  {
    if Match(rest, s, k).None? {
      LemmaShortestFinds(rest, s, i, k + 1, hi, t);
    }
  }

  /** Soundness: every hit the backtracking search returns is a real match. */
  lemma {:induction false} LemmaMatchSound(p: Pattern, s: string, i: nat)
    requires i <= |s| && Match(p, s, i).Some?
    ensures Accepts(p, s, i, Match(p, s, i).value.end, Match(p, s, i).value.spans)
    decreases |p|
  {
    if |p| > 0 {
      match p[0]
      case Lit(t) =>
        LemmaMatchSound(p[1..], s, i + |t|);
      case LineEnd =>
        if i < |s| && s[i] == '\n' && Match(p[1..], s, i + 1).Some? {
          LemmaMatchSound(p[1..], s, i + 1);
        } else {
          LemmaMatchSound(p[1..], s, i);
        }
      case Run(cls, min, greedy, _) =>
        var h := Match(p, s, i).value;
        LemmaMatchSound(p[1..], s, h.spans[0].hi);
    }
  }

  /** Completeness: whenever some match of `p` at `i` exists, the
      backtracking search finds one. With the soundness clause of `Match`,
      `Match(p, s, i)` succeeds exactly when `Accepts` has a solution. */
  lemma {:induction false} LemmaMatchComplete(p: Pattern, s: string, i: nat, e: nat, spans: seq<Span>)
    requires Accepts(p, s, i, e, spans)
    ensures i <= |s| && Match(p, s, i).Some?
    decreases |p|
  {
    if |p| > 0 {
      match p[0]
      case Lit(t) =>
        LemmaMatchComplete(p[1..], s, i + |t|, e, spans);
      case LineEnd =>
        if i < |s| && s[i] == '\n' && Accepts(p[1..], s, i + 1, e, spans) {
          LemmaMatchComplete(p[1..], s, i + 1, e, spans);
        } else {
          LemmaMatchComplete(p[1..], s, i, e, spans);
        }
      case Run(cls, min, greedy, _) =>
        LemmaMatchComplete(p[1..], s, spans[0].hi, e, spans[1..]);
        LemmaRunFinds(p, s, i, spans[0].hi);
    }
  }

  /** Some end `t` of a run at `i` lets the rest match, so the search for
      the run finds an end. */
  lemma LemmaRunFinds(p: Pattern, s: string, i: nat, t: nat)
    requires |p| > 0 && p[0].Run? && i + p[0].min <= t <= |s| && AllIn(p[0].cls, s, i, t)
    requires Match(p[1..], s, t).Some?
    ensures Match(p, s, i).Some?
  {
    LemmaRunEndCovers(p[0].cls, s, i, t);
    var j := RunEnd(p[0].cls, s, i);
    var lo := i + p[0].min;
    LemmaMatchRunUnfold(p, s, i);
    if p[0].greedy {
      LemmaLongestFinds(p[1..], s, i, lo, j, t);
      assert Match(p, s, i) == Longest(p[1..], s, i, lo, j);
    } else {
      LemmaShortestFinds(p[1..], s, i, lo, j, t);
      assert Match(p, s, i) == Shortest(p[1..], s, i, lo, j);
    }
  }

  lemma LemmaMatchRunUnfold(p: Pattern, s: string, i: nat)
    requires |p| > 0 && p[0].Run? && i <= |s|
    ensures var j := RunEnd(p[0].cls, s, i);
      Match(p, s, i) ==
        if j < i + p[0].min then None
        else if p[0].greedy then Longest(p[1..], s, i, i + p[0].min, j)
        else Shortest(p[1..], s, i, i + p[0].min, j)
  {
  }

  /** Every solution of `Accepts` has one span per run, each inside the
      matched text and in order. */
  lemma {:induction false} LemmaAcceptsSpans(p: Pattern, s: string, i: nat, e: nat, spans: seq<Span>)
    requires Accepts(p, s, i, e, spans)
    ensures i <= e <= |s|
    ensures |spans| == RunCount(p)
    ensures forall k :: 0 <= k < |spans| ==> i <= spans[k].lo <= spans[k].hi <= e
    decreases |p|
  {
    if |p| > 0 {
      match p[0]
      case Lit(t) =>
        LemmaAcceptsSpans(p[1..], s, i + |t|, e, spans);
      case LineEnd =>
        if i < |s| && s[i] == '\n' && Accepts(p[1..], s, i + 1, e, spans) {
          LemmaAcceptsSpans(p[1..], s, i + 1, e, spans);
        } else {
          LemmaAcceptsSpans(p[1..], s, i, e, spans);
        }
      case Run(_, _, _, _) =>
        LemmaAcceptsSpans(p[1..], s, spans[0].hi, e, spans[1..]);
        assert forall k :: 1 <= k < |spans| ==> spans[k] == spans[1..][k - 1];
    }
  }

  // ----- capturing groups -----

  /** Python's numbered groups: the spans of the capturing runs, in order
      (group `k + 1` is element `k`). */
  function Groups(p: Pattern, spans: seq<Span>): (g: seq<Span>)
    requires |spans| == RunCount(p)
    ensures |g| <= |spans|
    ensures forall k :: 0 <= k < |g| ==> g[k] in spans
    decreases |p|
  {
    if |p| == 0 then []
    else if p[0].Run? then
      (if p[0].group then [spans[0]] else []) + Groups(p[1..], spans[1..])
    else Groups(p[1..], spans)
  }

  function GroupCount(p: Pattern): nat {
    if |p| == 0 then 0 else (if p[0].Run? && p[0].group then 1 else 0) + GroupCount(p[1..])
  }

  lemma {:induction false} LemmaGroupsCount(p: Pattern, spans: seq<Span>)
    requires |spans| == RunCount(p)
    ensures |Groups(p, spans)| == GroupCount(p)
    decreases |p|
  {
    if |p| > 0 {
      if p[0].Run? {
        LemmaGroupsCount(p[1..], spans[1..]);
      } else {
        LemmaGroupsCount(p[1..], spans);
      }
    }
  }

  /** Run and group counts add up over the parts of a pattern. */
  lemma {:induction false} LemmaCountsAppend(p1: Pattern, p2: Pattern)
    ensures RunCount(p1 + p2) == RunCount(p1) + RunCount(p2)
    ensures GroupCount(p1 + p2) == GroupCount(p1) + GroupCount(p2)
    ensures MinWidth(p1 + p2) == MinWidth(p1) + MinWidth(p2)
    decreases |p1|
  {
    if |p1| == 0 {
      assert p1 + p2 == p2;
    } else {
      assert (p1 + p2)[0] == p1[0];
      assert (p1 + p2)[1..] == p1[1..] + p2;
      LemmaCountsAppend(p1[1..], p2);
    }
  }

  /** Group numbering of a pattern built from two parts continues from the
      first part into the second. */
  lemma {:induction false} LemmaGroupsAppend(p1: Pattern, p2: Pattern, sp1: seq<Span>, sp2: seq<Span>)
    requires |sp1| == RunCount(p1) && |sp2| == RunCount(p2)
    ensures RunCount(p1 + p2) == RunCount(p1) + RunCount(p2)
    ensures Groups(p1 + p2, sp1 + sp2) == Groups(p1, sp1) + Groups(p2, sp2)
    decreases |p1|
  {
    if |p1| == 0 {
      assert p1 + p2 == p2;
      assert sp1 + sp2 == sp2;
    } else {
      assert (p1 + p2)[0] == p1[0];
      assert (p1 + p2)[1..] == p1[1..] + p2;
      if p1[0].Run? {
        assert (sp1 + sp2)[0] == sp1[0];
        assert (sp1 + sp2)[1..] == sp1[1..] + sp2;
        LemmaGroupsAppend(p1[1..], p2, sp1[1..], sp2);
      } else {
        LemmaGroupsAppend(p1[1..], p2, sp1, sp2);
      }
    }
  }

  /** Every span of `sp` lies inside `s`. */
  predicate SpansIn(s: string, sp: seq<Span>) {
    forall j :: 0 <= j < |sp| ==> sp[j].lo <= sp[j].hi <= |s|
  }

  /** The text a span covers. */
  function Capture(s: string, sp: Span): string
    requires sp.lo <= sp.hi <= |s|
  {
    s[sp.lo..sp.hi]
  }

  // ----- reading a match back -----

  /** Every span of a hit lies inside the text, and there is one per run. */
  lemma LemmaMatchSpans(p: Pattern, s: string, i: nat)
    requires i <= |s| && Match(p, s, i).Some?
    ensures |Match(p, s, i).value.spans| == RunCount(p)
    ensures forall k :: 0 <= k < |Match(p, s, i).value.spans| ==>
      Match(p, s, i).value.spans[k].lo <= Match(p, s, i).value.spans[k].hi <= |s|
  {
    var h := Match(p, s, i).value;
    LemmaMatchSound(p, s, i);
    LemmaAcceptsSpans(p, s, i, h.end, h.spans);
  }

  /** The first item of a hit consumes `s[i..u]`, and the rest of the
      pattern, searched from `u`, takes the remainder of the hit. */
  lemma LemmaMatchStep(q: Pattern, s: string, i: nat) returns (u: nat)
    requires |q| > 0 && i <= |s| && Match(q, s, i).Some?
    ensures i <= u <= |s|
    ensures var h := Match(q, s, i).value;
      if q[0].Run? then
        |h.spans| > 0 && u == h.spans[0].hi && Match(q[1..], s, u) == Some(Hit(h.end, h.spans[1..]))
      else Match(q[1..], s, u) == Some(h)
  {
    match q[0]
    case Lit(lit) =>
      u := i + |lit|;
    case LineEnd =>
      if i < |s| && s[i] == '\n' && Match(q[1..], s, i + 1).Some? {
        u := i + 1;
      } else {
        u := i;
      }
    case Run(_, _, _, _) =>
      LemmaMatchRunUnfold(q, s, i);
      u := Match(q, s, i).value.spans[0].hi;
  }

  /** A hit of `p1 + p2` is a hit of `p1` up to some position `t`, from
      which `p2` is searched and takes the rest of the hit. */
  lemma {:induction false} LemmaMatchSplit(p1: Pattern, p2: Pattern, s: string, i: nat) returns (t: nat)
    requires i <= |s| && Match(p1 + p2, s, i).Some?
    ensures RunCount(p1) <= |Match(p1 + p2, s, i).value.spans|
    ensures i <= t <= |s|
    ensures Match(p2, s, t) == Some(Hit(Match(p1 + p2, s, i).value.end,
      Match(p1 + p2, s, i).value.spans[RunCount(p1)..]))
    decreases |p1|
  {
    var q := p1 + p2;
    var h := Match(q, s, i).value;
    if |p1| == 0 {
      assert q == p2;
      t := i;
    } else {
      assert q[0] == p1[0] && q[1..] == p1[1..] + p2;
      var u := LemmaMatchStep(q, s, i);
      t := LemmaMatchSplit(p1[1..], p2, s, u);
      if p1[0].Run? {
        assert h.spans[1..][RunCount(p1[1..])..] == h.spans[RunCount(p1)..];
      }
    }
  }

  /** A run at the head of a hit starts there and covers class characters only. */
  lemma LemmaLeadRun(p: Pattern, s: string, i: nat)
    requires |p| > 0 && p[0].Run? && i <= |s| && Match(p, s, i).Some?
    ensures var h := Match(p, s, i).value;
      && |h.spans| > 0 && h.spans[0].lo == i && i + p[0].min <= h.spans[0].hi <= |s|
      && AllIn(p[0].cls, s, i, h.spans[0].hi)
  {
    LemmaMatchRunUnfold(p, s, i);
  }

  /** A literal at the head of a hit is present in the text, and the rest
      of the pattern takes the hit from after it. */
  lemma LemmaLitStep(q: Pattern, s: string, i: nat)
    requires |q| > 0 && q[0].Lit? && i <= |s| && Match(q, s, i).Some?
    ensures i + |q[0].lit| <= |s| && s[i..i + |q[0].lit|] == q[0].lit
    ensures Match(q[1..], s, i + |q[0].lit|) == Match(q, s, i)
  {
  }

  /** A run at the head of a hit covers class characters from `i` to the
      end of its span, and the rest of the pattern takes the hit from there. */
  lemma LemmaRunStep(q: Pattern, s: string, i: nat)
    requires |q| > 0 && q[0].Run? && i <= |s| && Match(q, s, i).Some?
    ensures var h := Match(q, s, i).value;
      && |h.spans| > 0 && h.spans[0].lo == i && i + q[0].min <= h.spans[0].hi <= |s|
      && AllIn(q[0].cls, s, i, h.spans[0].hi)
      && Match(q[1..], s, h.spans[0].hi) == Some(Hit(h.end, h.spans[1..]))
  {
    LemmaLeadRun(q, s, i);
    var u := LemmaMatchStep(q, s, i);
  }

  /** A lazy run at the head of a hit ends at the first position from
      which the rest of the pattern matches. */
  lemma LemmaLazyEnd(p: Pattern, s: string, i: nat)
    requires |p| > 0 && p[0].Run? && !p[0].greedy && p[0].min == 0 && p[0].cls == AnyChar
    requires i <= |s| && Match(p, s, i).Some?
    ensures var h := Match(p, s, i).value;
      && |h.spans| > 0 && h.spans[0].lo == i && i <= h.spans[0].hi <= |s|
      && Match(p[1..], s, h.spans[0].hi) == Some(Hit(h.end, h.spans[1..]))
      && forall u :: i <= u < h.spans[0].hi ==> Match(p[1..], s, u).None?
  {
    var j := RunEnd(AnyChar, s, i);
    LemmaMatchRunUnfold(p, s, i);
    assert Match(p, s, i) == Shortest(p[1..], s, i, i, j);
    LemmaShortestBefore(p[1..], s, i, i, j);
  }

  /** A greedy run at the head of a hit stops short of a class character
      only when the rest of the pattern does not match just past that
      character. */
  lemma LemmaGreedyEnd(p: Pattern, s: string, i: nat)
    requires |p| > 0 && p[0].Run? && p[0].greedy
    requires i <= |s| && Match(p, s, i).Some?
    ensures var h := Match(p, s, i).value;
      && |h.spans| > 0 && h.spans[0].lo == i && i <= h.spans[0].hi <= |s|
      && (h.spans[0].hi < |s| && InClass(p[0].cls, s[h.spans[0].hi]) ==>
            Match(p[1..], s, h.spans[0].hi + 1).None?)
  {
    var cls := p[0].cls;
    var j := RunEnd(cls, s, i);
    LemmaMatchRunUnfold(p, s, i);
    LemmaLeadRun(p, s, i);
    assert Match(p, s, i) == Longest(p[1..], s, i, i + p[0].min, j);
    LemmaLongestAfter(p[1..], s, i, i + p[0].min, j);
    var a := Match(p, s, i).value.spans[0].hi;
    if a < |s| && InClass(cls, s[a]) {
      assert AllIn(cls, s, i, a + 1);
      LemmaRunEndCovers(cls, s, i, a + 1);
    }
  }

  /** A lazy `.*?` run fails from `i` only when the rest of the pattern
      matches at no position from `i` to the end of the text. */
  lemma LemmaLazyNone(p: Pattern, s: string, i: nat)
    requires |p| > 0 && p[0].Run? && !p[0].greedy && p[0].min == 0 && p[0].cls == AnyChar
    requires i <= |s| && Match(p, s, i).None?
    ensures forall v :: i <= v <= |s| ==> Match(p[1..], s, v).None?
  {
    var j := RunEnd(AnyChar, s, i);
    assert j == |s|;
    LemmaMatchRunUnfold(p, s, i);
    LemmaShortestNone(p[1..], s, i, i, j);
  }
}
