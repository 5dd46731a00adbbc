/** First-choice matches: when a text is laid out piece by piece so that
    each item of a pattern takes its piece on the search's first attempt
    (a literal its text, a greedy run everything up to a character outside
    its class, a lazy run everything up to the character that starts the
    next item), the backtracking search returns exactly that layout. This is
    what lets text written in the prompt's format be read back. */
module Layout {
  import opened Wrappers
  import opened Regex

  /** The pieces of text consumed by the successive items of a pattern, joined. */
  function Concat(pieces: seq<string>): string
  {
    if |pieces| == 0 then "" else pieces[0] + Concat(pieces[1..])
  }

  /** The item `next` fails at once at every position inside `x`: it is
      literal text, or a line end, whose first character never occurs in `x`. */
  predicate StopsBefore(next: Item, x: string) {
    match next
    case Lit(t) => |t| > 0 && t[0] !in x
    case LineEnd => '\n' !in x
    case Run(_, _, _, _) => false
  }

  /** Piece `x` is what item `it` takes on the search's first choice, where
      `after` is the pattern that follows the item and `j` the position right
      after `x`: a greedy run stops only where its class does, a lazy run's
      piece never contains the character that would end it earlier. */
  predicate ItemFits(it: Item, x: string, after: Pattern, s: string, j: nat) {
    match it
    case Lit(t) => x == t
    case LineEnd => x == "\n"
    case Run(cls, min, greedy, _) =>
      && |x| >= min
      && (forall k :: 0 <= k < |x| ==> InClass(cls, x[k]))
      && (if greedy then j <= |s| && (j == |s| || !InClass(cls, s[j]))
          else |after| > 0 && StopsBefore(after[0], x[min..]))
  }

  /** Each item of `p`, followed by the pattern `next`, takes its piece on
      the first choice when the text from `i` on is read. */
  predicate Fits(p: Pattern, pieces: seq<string>, next: Pattern, s: string, i: nat)
    decreases |p|
  {
    && |pieces| == |p|
    && (|p| > 0 ==>
        && ItemFits(p[0], pieces[0], p[1..] + next, s, i + |pieces[0]|)
        && Fits(p[1..], pieces[1..], next, s, i + |pieces[0]|))
  }

  /** The span a run item records for the piece `lo .. hi`; other items record none. */
  function RunSpan(it: Item, lo: nat, hi: nat): (r: seq<Span>)
  {
    if it.Run? then [Span(lo, hi)] else []
  }

  /** The spans of the runs of `p` when item `k` takes `pieces[k]` from `i` on. */
  function SpansOf(p: Pattern, pieces: seq<string>, i: nat): seq<Span>
    requires |pieces| == |p|
    decreases |p|
  {
    if |p| == 0 then []
    else
      RunSpan(p[0], i, i + |pieces[0]|) + SpansOf(p[1..], pieces[1..], i + |pieces[0]|)
  }

  lemma LemmaSpansOfStep(p: Pattern, pieces: seq<string>, i: nat, tail: seq<Span>)
    requires |p| > 0 && |pieces| == |p|
    ensures RunSpan(p[0], i, i + |pieces[0]|) + (SpansOf(p[1..], pieces[1..], i + |pieces[0]|) + tail)
      == SpansOf(p, pieces, i) + tail
  {
  }

  /** A literal that is present is consumed and the search goes on after it. */
  lemma LemmaStepLit(q: Pattern, s: string, i: nat, m: Hit)
    requires |q| > 0 && q[0].Lit? && i + |q[0].lit| <= |s| && s[i..i + |q[0].lit|] == q[0].lit
    requires Match(q[1..], s, i + |q[0].lit|) == Some(m)
    ensures Match(q, s, i) == Some(m)
  {
  }

  /** A newline that is present satisfies `(?:\n|$)` through its first branch. */
  lemma LemmaStepLineEnd(q: Pattern, s: string, i: nat, m: Hit)
    requires |q| > 0 && q[0].LineEnd? && i < |s| && s[i] == '\n'
    requires Match(q[1..], s, i + 1) == Some(m)
    ensures Match(q, s, i) == Some(m)
  {
  }

  /** A greedy run whose whole run lets the rest match takes the whole run. */
  lemma LemmaStepGreedy(q: Pattern, s: string, i: nat, j: nat, m: Hit)
    requires |q| > 0 && q[0].Run? && q[0].greedy
    requires i + q[0].min <= j <= |s| && AllIn(q[0].cls, s, i, j)
    requires j == |s| || !InClass(q[0].cls, s[j])
    requires Match(q[1..], s, j) == Some(m)
    ensures Match(q, s, i) == Some(Hit(m.end, [Span(i, j)] + m.spans))
  {
    LemmaRunEndExact(q[0].cls, s, i, j);
  }

  /** The rest of the pattern fails at every end in `k .. j - 1`. */
  ghost predicate NoMatchIn(rest: Pattern, s: string, k: nat, j: nat)
    decreases j - k
  {
    k >= j || (k < |s| && Match(rest, s, k).None? && NoMatchIn(rest, s, k + 1, j))
  }

  /** The lazy search from `k` stops at the first end `j` where the rest matches. */
  lemma {:induction false} LemmaShortestAt(rest: Pattern, s: string, i: nat, k: nat, hi: nat, j: nat, m: Hit)
    requires i <= k <= j <= hi <= |s|
    requires NoMatchIn(rest, s, k, j)
    requires Match(rest, s, j) == Some(m)
    ensures Shortest(rest, s, i, k, hi) == Some(Hit(m.end, [Span(i, j)] + m.spans))
    decreases j - k
  {
    if k < j {
      LemmaShortestAt(rest, s, i, k + 1, hi, j, m);
    }
  }

  /** A lazy run takes the first end at which the rest matches. */
  lemma LemmaStepLazy(q: Pattern, s: string, i: nat, j: nat, m: Hit)
    requires |q| > 0 && q[0].Run? && !q[0].greedy
    requires i + q[0].min <= j <= |s| && AllIn(q[0].cls, s, i, j)
    requires NoMatchIn(q[1..], s, i + q[0].min, j)
    requires Match(q[1..], s, j) == Some(m)
    ensures Match(q, s, i) == Some(Hit(m.end, [Span(i, j)] + m.spans))
  {
    LemmaRunEndCovers(q[0].cls, s, i, j);
    var k := RunEnd(q[0].cls, s, i);
    var lo := i + q[0].min;
    LemmaShortestAt(q[1..], s, i, lo, k, j, m);
    LemmaMatchRunUnfold(q, s, i);
    assert Match(q, s, i) == Shortest(q[1..], s, i, lo, k);
  }

  /** The item that ends a lazy run fails at once where its first character is absent. */
  lemma LemmaStops(rest: Pattern, s: string, t: nat)
    requires |rest| > 0 && t < |s|
    requires StopsBefore(rest[0], [s[t]])
    ensures Match(rest, s, t).None?
  {
    match rest[0]
    case Lit(lit) =>
      if t + |lit| <= |s| {
        assert s[t..t + |lit|][0] == s[t];
      }
    case LineEnd =>
    case Run(_, _, _, _) =>
  }

  /** Inside the lazy piece `x` (read at `i`), past its first `min`
      characters, the item after the run fails at every position. */
  lemma {:induction false} LemmaLazyStops(rest: Pattern, s: string, x: string, i: nat, min: nat, k: nat)
    requires |rest| > 0 && min <= |x| && i + |x| <= |s| && s[i..i + |x|] == x
    requires StopsBefore(rest[0], x[min..])
    requires i + min <= k <= i + |x|
    ensures NoMatchIn(rest, s, k, i + |x|)
    decreases i + |x| - k
  {
    if k < i + |x| {
      assert s[k] == x[min..][k - i - min] by {
        assert s[k] == s[i..i + |x|][k - i];
      }
      LemmaStops(rest, s, k);
      LemmaLazyStops(rest, s, x, i, min, k + 1);
    }
  }

  /** The first item of `q`, reading its first-choice piece `x` at `i`. */
  lemma LemmaFirstItem(q: Pattern, x: string, s: string, i: nat, m: Hit)
    requires |q| > 0 && i + |x| <= |s| && s[i..i + |x|] == x
    requires ItemFits(q[0], x, q[1..], s, i + |x|)
    requires Match(q[1..], s, i + |x|) == Some(m)
    ensures Match(q, s, i) == Some(Hit(m.end, RunSpan(q[0], i, i + |x|) + m.spans))
  {
    if q[0].Run? {
      LemmaFirstRun(q, x, s, i, m);
    } else {
      assert [] + m.spans == m.spans;
      if q[0].Lit? {
        LemmaStepLit(q, s, i, m);
      } else {
        assert s[i] == s[i..i + |x|][0];
        LemmaStepLineEnd(q, s, i, m);
      }
    }
  }

  /** A run item takes exactly its first-choice piece. */
  lemma LemmaFirstRun(q: Pattern, x: string, s: string, i: nat, m: Hit)
    requires |q| > 0 && q[0].Run? && i + |x| <= |s| && s[i..i + |x|] == x
    requires ItemFits(q[0], x, q[1..], s, i + |x|)
    requires Match(q[1..], s, i + |x|) == Some(m)
    ensures Match(q, s, i) == Some(Hit(m.end, [Span(i, i + |x|)] + m.spans))
  {
    var j := i + |x|;
    LemmaPieceIn(q[0].cls, x, s, i);
    if q[0].greedy {
      LemmaStepGreedy(q, s, i, j, m);
    } else {
      LemmaLazyStops(q[1..], s, x, i, q[0].min, i + q[0].min);
      LemmaStepLazy(q, s, i, j, m);
    }
  }

  lemma LemmaPieceIn(cls: CharClass, x: string, s: string, i: nat)
    requires i + |x| <= |s| && s[i..i + |x|] == x
    requires forall k :: 0 <= k < |x| ==> InClass(cls, x[k])
    ensures AllIn(cls, s, i, i + |x|)
  {
    forall k | i <= k < i + |x|
      ensures InClass(cls, s[k])
    {
      assert s[k] == x[k - i];
    }
  }

  /** Text that spells the joined pieces starts with the first piece and
      continues with the rest. */
  lemma LemmaConcatSplit(pieces: seq<string>, s: string, i: nat)
    requires |pieces| > 0
    requires i + |Concat(pieces)| <= |s| && s[i..i + |Concat(pieces)|] == Concat(pieces)
    ensures var j := i + |pieces[0]|; var c := Concat(pieces[1..]);
      && |Concat(pieces)| == |pieces[0]| + |c|
      && s[i..j] == pieces[0] && j + |c| <= |s| && s[j..j + |c|] == c
  {
    var x := pieces[0];
    var j := i + |x|;
    var c := Concat(pieces[1..]);
    var w := s[i..i + |x| + |c|];
    assert Concat(pieces) == x + c;
    assert w == x + c;
    assert s[i..j] == w[..|x|];
    assert s[j..j + |c|] == w[|x|..];
  }

  /** Text that spells `a + b` at `i` spells `a` at `i` and `b` right after. */
  lemma LemmaSplitAt(s: string, i: nat, a: string, b: string)
    requires i + |a + b| <= |s| && s[i..i + |a + b|] == a + b
    ensures s[i..i + |a|] == a && s[i + |a|..i + |a| + |b|] == b
  {
    assert s[i..i + |a|] == s[i..i + |a + b|][..|a|];
    assert s[i + |a|..i + |a| + |b|] == s[i..i + |a + b|][|a|..];
  }

  /** Text that spells `w` at `i` holds `w[a..b]` at `i + a`. */
  lemma LemmaSliceAt(s: string, i: nat, w: string, a: nat, b: nat)
    requires i + |w| <= |s| && s[i..i + |w|] == w && a <= b <= |w|
    ensures s[i + a..i + b] == w[a..b]
  {
    forall k | 0 <= k < b - a
      ensures s[i + a..i + b][k] == w[a..b][k]
    {
      assert s[i + a + k] == s[i..i + |w|][a + k];
    }
  }

  /** One step of `LemmaFirstChoice`: the first item takes its piece, and
      the rest of `p` followed by `next` continues as given. */
  lemma LemmaFirstChoiceStep(p: Pattern, pieces: seq<string>, next: Pattern, s: string, i: nat,
      e: nat, rest: seq<Span>)
    requires |p| > 0 && |pieces| == |p|
    requires i + |pieces[0]| <= |s| && s[i..i + |pieces[0]|] == pieces[0]
    requires ItemFits(p[0], pieces[0], p[1..] + next, s, i + |pieces[0]|)
    requires Match(p[1..] + next, s, i + |pieces[0]|) == Some(Hit(e, rest))
    ensures Match(p + next, s, i) == Some(Hit(e, RunSpan(p[0], i, i + |pieces[0]|) + rest))
  {
    LemmaAppendTail(p, next);
    LemmaFirstItem(p + next, pieces[0], s, i, Hit(e, rest));
  }

  lemma LemmaAppendTail(p: Pattern, next: Pattern)
    requires |p| > 0
    ensures (p + next)[0] == p[0] && (p + next)[1..] == p[1..] + next
  {
  }

  /** When the text at `i` is the pieces of `p` and each piece is the first
      choice of its item, the search for `p + next` takes exactly those
      pieces and then the match of `next`. */
  lemma {:induction false} LemmaFirstChoice(p: Pattern, pieces: seq<string>, next: Pattern, s: string, i: nat, h: Hit)
    requires Fits(p, pieces, next, s, i)
    requires i + |Concat(pieces)| <= |s| && s[i..i + |Concat(pieces)|] == Concat(pieces)
    requires Match(next, s, i + |Concat(pieces)|) == Some(h)
    ensures Match(p + next, s, i) == Some(Hit(h.end, SpansOf(p, pieces, i) + h.spans))
    decreases |p|
  {
    if |p| == 0 {
      assert p + next == next;
      assert Concat(pieces) == "";
      assert SpansOf(p, pieces, i) + h.spans == h.spans;
    } else {
      var j := i + |pieces[0]|;
      LemmaConcatSplit(pieces, s, i);
      LemmaFirstChoice(p[1..], pieces[1..], next, s, j, h);
      var rest := SpansOf(p[1..], pieces[1..], j) + h.spans;
      LemmaFirstChoiceStep(p, pieces, next, s, i, h.end, rest);
      LemmaSpansOfStep(p, pieces, i, h.spans);
    }
  }
}
