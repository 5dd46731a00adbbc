/** Python's `finditer` / `findall` scan: try `Match` at each position from
    left to right; on a hit, record it and resume where it ended; otherwise
    move on by one character. The scan is modelled for patterns whose every
    match consumes at least one character, which holds for both patterns
    here (each begins with `\d+`). */
module Search {
  import opened Wrappers
  import opened Regex

  /** One match found by the scan: where it starts and ends, and its run spans. */
  datatype Found = Found(start: nat, end: nat, spans: seq<Span>)

  function FindAll(p: Pattern, s: string, pos: nat): (r: seq<Found>)
    requires MinWidth(p) > 0 && pos <= |s|
    ensures forall k :: 0 <= k < |r| ==>
      && pos <= r[k].start < r[k].end <= |s|
      && Match(p, s, r[k].start) == Some(Hit(r[k].end, r[k].spans))
    ensures forall k :: 0 <= k < |r| - 1 ==> r[k].end <= r[k + 1].start
    decreases |s| - pos
  {
    match Match(p, s, pos)
    case Some(h) => [Found(pos, h.end, h.spans)] + FindAll(p, s, h.end)
    case None => if pos == |s| then [] else FindAll(p, s, pos + 1)
  }

  /** No match of `p` starts anywhere in `lo .. hi - 1`. */
  ghost predicate Unmatched(p: Pattern, s: string, lo: nat, hi: nat) {
    forall j: nat, e: nat, sp: seq<Span> :: lo <= j < hi ==> !Accepts(p, s, j, e, sp)
  }

  /** Every match the scan reports is a real match of the pattern. */
  lemma LemmaFindAllSound(p: Pattern, s: string, pos: nat)
    requires MinWidth(p) > 0 && pos <= |s|
    ensures forall k :: 0 <= k < |FindAll(p, s, pos)| ==>
      var f := FindAll(p, s, pos)[k];
      Accepts(p, s, f.start, f.end, f.spans)
  {
    var r := FindAll(p, s, pos);
    forall k | 0 <= k < |r|
      ensures Accepts(p, s, r[k].start, r[k].end, r[k].spans)
    {
      LemmaMatchSound(p, s, r[k].start);
    }
  }

  /** The scan is leftmost and skips nothing: no match of the pattern starts
      before the first reported match, between two consecutive ones, or after
      the last one. */
  lemma {:induction false} LemmaFindAllLeftmost(p: Pattern, s: string, pos: nat)
    requires MinWidth(p) > 0 && pos <= |s|
    ensures var r := FindAll(p, s, pos);
      && (|r| == 0 ==> Unmatched(p, s, pos, |s| + 1))
      && (|r| > 0 ==> Unmatched(p, s, pos, r[0].start) && Unmatched(p, s, r[|r| - 1].end, |s| + 1))
      && (forall k :: 0 <= k < |r| - 1 ==> Unmatched(p, s, r[k].end, r[k + 1].start))
    decreases |s| - pos, 1
  {
    if Match(p, s, pos).Some? {
      LemmaLeftmostHit(p, s, pos);
    } else {
      LemmaLeftmostMiss(p, s, pos);
    }
  }

  /** The same when a match starts at `pos`: it is the first one reported. */
  lemma {:induction false} LemmaLeftmostHit(p: Pattern, s: string, pos: nat)
    requires MinWidth(p) > 0 && pos <= |s| && Match(p, s, pos).Some?
    ensures var r := FindAll(p, s, pos);
      && |r| > 0 && r[0].start == pos && Unmatched(p, s, r[|r| - 1].end, |s| + 1)
      && (forall k :: 0 <= k < |r| - 1 ==> Unmatched(p, s, r[k].end, r[k + 1].start))
    decreases |s| - pos, 0
  {
    var r := FindAll(p, s, pos);
    var h := Match(p, s, pos).value;
    var rest := FindAll(p, s, h.end);
    assert r == [Found(pos, h.end, h.spans)] + rest;
    LemmaFindAllLeftmost(p, s, h.end);
    forall k | 0 <= k < |r| - 1
      ensures Unmatched(p, s, r[k].end, r[k + 1].start)
    {
      if k > 0 {
        assert r[k] == rest[k - 1] && r[k + 1] == rest[k];
      }
    }
  }

  /** The same when no match starts at `pos`: the scan moves on to `pos + 1`. */
  lemma {:induction false} LemmaLeftmostMiss(p: Pattern, s: string, pos: nat)
    requires MinWidth(p) > 0 && pos <= |s| && Match(p, s, pos).None?
    ensures var r := FindAll(p, s, pos);
      && (|r| == 0 ==> Unmatched(p, s, pos, |s| + 1))
      && (|r| > 0 ==> Unmatched(p, s, pos, r[0].start) && Unmatched(p, s, r[|r| - 1].end, |s| + 1))
      && (forall k :: 0 <= k < |r| - 1 ==> Unmatched(p, s, r[k].end, r[k + 1].start))
    decreases |s| - pos, 0
  {
    forall e: nat, sp: seq<Span> | Accepts(p, s, pos, e, sp)
      ensures false
    {
      LemmaMatchComplete(p, s, pos, e, sp);
    }
    if pos < |s| {
      LemmaFindAllLeftmost(p, s, pos + 1);
    }
  }

  /** The scan reports nothing exactly when no position admits a match. */
  lemma LemmaFindAllEmpty(p: Pattern, s: string, pos: nat)
    requires MinWidth(p) > 0 && pos <= |s|
    ensures FindAll(p, s, pos) == [] <==> Unmatched(p, s, pos, |s| + 1)
  {
    var r := FindAll(p, s, pos);
    LemmaFindAllLeftmost(p, s, pos);
    if r != [] {
      LemmaMatchSound(p, s, r[0].start);
      assert Accepts(p, s, r[0].start, r[0].end, r[0].spans);
    }
  }
}
