/**
 * The depth-matching end finder of `ImageInserter.findSlideEnd`: starting just
 * past a slide's opening marker with depth 1, it pairs the nearest `<div`
 * (any div) with the nearest `</div>` and returns the offset just past the
 * `</div>` that brings the depth to 0, or -1.
 *
 * The loop is proved against a reference definition that does not scan
 * token by token: `Depth` counts every `<div` and `</div>` starting in a range,
 * and `MatchingClose` is the first `</div>` after which that count is 0.
 */
module SpanFinder {
  import opened Text

  /** The exact opening marker of a slide (19 characters). */
  const SlideMarker := "<div class=\"slide\">"
  const DivOpen := "<div"
  const DivClose := "</div>"

  /** A `<div` (any div, with or without attributes) starts at `q`. */
  predicate OpenAt(b: string, q: nat) {
    q + 4 <= |b| && b[q] == '<' && b[q + 1] == 'd' && b[q + 2] == 'i' && b[q + 3] == 'v'
  }

  /** A `</div>` starts at `q`. */
  predicate CloseAt(b: string, q: nat) {
    q + 6 <= |b| && b[q] == '<' && b[q + 1] == '/' && b[q + 2] == 'd' && b[q + 3] == 'i'
    && b[q + 4] == 'v' && b[q + 5] == '>'
  }

  /** The searches for the literal tokens find exactly these positions. */
  lemma TokenOccurs(b: string, q: nat)
    ensures OccursAt(b, DivOpen, q) <==> OpenAt(b, q)
    ensures OccursAt(b, DivClose, q) <==> CloseAt(b, q)
  {
    if OccursAt(b, DivOpen, q) {
      OccursAtChars(b, DivOpen, q);
      assert b[q] == DivOpen[0] && b[q + 1] == DivOpen[1] && b[q + 2] == DivOpen[2] && b[q + 3] == DivOpen[3];
    }
    if OccursAt(b, DivClose, q) {
      OccursAtChars(b, DivClose, q);
      assert b[q] == DivClose[0] && b[q + 1] == DivClose[1] && b[q + 2] == DivClose[2];
      assert b[q + 3] == DivClose[3] && b[q + 4] == DivClose[4] && b[q + 5] == DivClose[5];
    }
    if OpenAt(b, q) { assert b[q..q + 4] == DivOpen; }
    if CloseAt(b, q) {
      var w := b[q..q + 6];
      assert w[0] == '<' && w[1] == '/' && w[2] == 'd' && w[3] == 'i' && w[4] == 'v' && w[5] == '>';
      assert |w| == |DivClose| && forall j :: 0 <= j < 6 ==> w[j] == DivClose[j];
      assert w == DivClose;
    }
  }

  /** `<div` and `</div>` never start at the same place. */
  lemma TokensDiffer(b: string, q: nat)
    ensures !(OpenAt(b, q) && CloseAt(b, q))
  {
  }

  /** No `<div` or `</div>` starts in `[p, t)`. */
  ghost predicate NoTokens(b: string, p: nat, t: nat) {
    forall q :: p <= q < t ==> !OpenAt(b, q) && !CloseAt(b, q)
  }

  /** No `<div` or `</div>` starts strictly inside a `<div` or a `</div>`. */
  lemma NoTokensInside(b: string, q: nat)
    ensures OpenAt(b, q) ==> NoTokens(b, q + 1, q + 4)
    ensures CloseAt(b, q) ==> NoTokens(b, q + 1, q + 6)
  {
  }

  /** How a character offset changes the depth: +1 for `<div`, -1 for `</div>`. */
  function Step(b: string, q: nat): int {
    (if OpenAt(b, q) then 1 else 0) - (if CloseAt(b, q) then 1 else 0)
  }

  /**
   * The nesting depth after scanning `[lo, hi)`: 1 for the slide's own opening
   * marker, plus the `<div`s, minus the `</div>`s that start in the range.
   */
  function Depth(b: string, lo: nat, hi: nat): int
    decreases hi - lo
  {
    if hi <= lo then 1 else Depth(b, lo, hi - 1) + Step(b, hi - 1)
  }

  /**
   * The end (offset just past it) of the first `</div>` at or after `p` that
   * brings the depth counted from `lo` to 0, or -1 when there is none.
   */
  function MatchingClose(b: string, lo: nat, p: nat): (r: int)
    decreases |b| - p
    ensures r == -1 || (p + 6 <= r <= |b| && CloseAt(b, r - 6) && Depth(b, lo, r - 5) == 0)
  {
    if p + 6 > |b| then -1
    else if CloseAt(b, p) && Depth(b, lo, p + 1) == 0 then p + 6
    else MatchingClose(b, lo, p + 1)
  }

  /** The end of the slide whose marker starts at `s`, or -1 when it is unterminated. */
  function SlideEnd(b: string, s: nat): (r: int)
    ensures r == -1 || (s + 25 <= r <= |b| && CloseAt(b, r - 6))
  {
    MatchingClose(b, s + |SlideMarker|, s + |SlideMarker|)
  }

  /**
   * `MatchingClose` picks the FIRST `</div>` that brings the depth to 0, and
   * answers -1 exactly when there is none.
   */
  lemma {:induction false} MatchingCloseIsFirst(b: string, lo: nat, p: nat)
    ensures var r := MatchingClose(b, lo, p);
            r == -1 <==> forall e :: p <= e && CloseAt(b, e) ==> Depth(b, lo, e + 1) != 0
    ensures var r := MatchingClose(b, lo, p);
            r != -1 ==> forall e :: p <= e < r - 6 && CloseAt(b, e) ==> Depth(b, lo, e + 1) != 0
    decreases |b| - p
  {
    if p + 6 <= |b| && !(CloseAt(b, p) && Depth(b, lo, p + 1) == 0) {
      MatchingCloseIsFirst(b, lo, p + 1);
    }
  }

  /** Skipping a stretch without tokens changes neither the depth nor the answer. */
  lemma {:induction false} SkipGap(b: string, lo: nat, p: nat, t: nat)
    requires lo <= p <= t
    requires NoTokens(b, p, t)
    ensures Depth(b, lo, t) == Depth(b, lo, p)
    ensures MatchingClose(b, lo, t) == MatchingClose(b, lo, p)
    decreases t - p
  {
    if t > p {
      SkipGap(b, lo, p, t - 1);
      assert !CloseAt(b, t - 1);
    }
  }

  /**
   * Before a depth of 0 is reached, some `</div>` must have brought it there:
   * the depth moves by one token at a time and starts at 1.
   */
  lemma {:induction false} FirstZero(b: string, lo: nat, q: nat)
    requires lo <= q && Depth(b, lo, q) <= 0
    ensures exists e :: lo <= e < q && CloseAt(b, e) && Depth(b, lo, e + 1) == 0
    decreases q - lo
  {
    TokensDiffer(b, q - 1);
    if Depth(b, lo, q - 1) <= 0 {
      FirstZero(b, lo, q - 1);
    } else {
      assert CloseAt(b, q - 1) && Depth(b, lo, q) == 0;
    }
  }

  /**
   * Between the opening marker and the matching `</div>` the running depth
   * never drops below 1, and right after that `</div>` it is 0.
   */
  lemma DepthPositiveInsideSlide(b: string, s: nat)
    requires SlideEnd(b, s) != -1
    ensures var lo, r := s + |SlideMarker|, SlideEnd(b, s);
            Depth(b, lo, r - 5) == 0 &&
            forall q :: lo <= q <= r - 6 ==> Depth(b, lo, q) >= 1
  {
    var lo, r := s + |SlideMarker|, SlideEnd(b, s);
    MatchingCloseIsFirst(b, lo, lo);
    forall q | lo <= q <= r - 6 ensures Depth(b, lo, q) >= 1 {
      if Depth(b, lo, q) <= 0 {
        FirstZero(b, lo, q);
      }
    }
  }

  /**
   * `findSlideEnd` answers -1 exactly when no `</div>` after the marker brings
   * the depth to 0.
   */
  lemma SlideEndMinusOne(b: string, s: nat)
    ensures var lo := s + |SlideMarker|;
            SlideEnd(b, s) == -1 <==> forall e :: lo <= e && CloseAt(b, e) ==> Depth(b, lo, e + 1) != 0
  {
    MatchingCloseIsFirst(b, s + |SlideMarker|, s + |SlideMarker|);
  }

  /**
   * The state of the scan in `findSlideEnd` at offset `pos`: the running depth
   * is `depth` (at least 1), and the first `</div>` from here that brings it to
   * 0 is the one the whole scan is looking for.
   */
  ghost predicate Scanning(b: string, lo: nat, pos: nat, depth: int, target: int) {
    lo <= pos && depth == Depth(b, lo, pos) && depth >= 1 && MatchingClose(b, lo, pos) == target
  }

  /** One iteration of the scan, given the nearest `<div` (`ds`) and `</div>` (`de`). */
  lemma ScanStep(b: string, lo: nat, pos: nat, depth: int, target: int, ds: int, de: int)
    requires Scanning(b, lo, pos, depth, target)
    requires ds == IndexOf(b, DivOpen, pos) && de == IndexOf(b, DivClose, pos)
    ensures de == -1 ==> target == -1
    ensures de != -1 && ds != -1 && ds < de ==>
              ds + 4 <= |b| && Scanning(b, lo, ds + 4, depth + 1, target)
    ensures de != -1 && !(ds != -1 && ds < de) ==>
              de + 6 <= |b| && pos <= de &&
              (depth == 1 ==> target == de + 6) &&
              (depth != 1 ==> Scanning(b, lo, de + 6, depth - 1, target))
  {
    NearestTokens(b, pos, ds, de);
    if de != -1 {
      if ds != -1 && ds < de {
        DivOpenStep(b, lo, pos, ds);
      } else {
        DivCloseStep(b, lo, pos, de);
      }
    }
  }

  /** The scan's step when the nearest `<div` comes before the nearest `</div>`. */
  lemma OpenFirst(b: string, lo: nat, pos: nat, depth: int, target: int, ds: int, de: int)
    requires Scanning(b, lo, pos, depth, target)
    requires ds == IndexOf(b, DivOpen, pos) && de == IndexOf(b, DivClose, pos)
    requires de != -1 && ds != -1 && ds < de
    ensures ds + 4 <= |b| && Scanning(b, lo, ds + 4, depth + 1, target)
  {
    ScanStep(b, lo, pos, depth, target, ds, de);
  }

  /** The scan's step when the nearest `</div>` comes first. */
  lemma CloseFirst(b: string, lo: nat, pos: nat, depth: int, target: int, ds: int, de: int)
    requires Scanning(b, lo, pos, depth, target)
    requires ds == IndexOf(b, DivOpen, pos) && de == IndexOf(b, DivClose, pos)
    requires de != -1 && !(ds != -1 && ds < de)
    ensures de + 6 <= |b| && pos <= de
    ensures depth == 1 ==> target == de + 6
    ensures depth != 1 ==> Scanning(b, lo, de + 6, depth - 1, target)
  {
    ScanStep(b, lo, pos, depth, target, ds, de);
  }

  /** No `</div>` left: the scan finds no end. */
  lemma CloseMissing(b: string, lo: nat, pos: nat, depth: int, target: int)
    requires Scanning(b, lo, pos, depth, target)
    requires IndexOf(b, DivClose, pos) == -1
    ensures target == -1
  {
    ScanStep(b, lo, pos, depth, target, IndexOf(b, DivOpen, pos), -1);
  }

  /** `ImageInserter.findSlideEnd`: the same paired-search loop as the source. */
  method FindSlideEnd(b: string, slideStart: nat) returns (r: int)
    ensures r == SlideEnd(b, slideStart)
  {
    var depth := 1;
    var pos: nat := slideStart + |SlideMarker|;
    ghost var lo, target := pos, SlideEnd(b, slideStart);
    while pos < |b| && depth > 0
      invariant Scanning(b, lo, pos, depth, target)
      decreases |b| - pos
    {
      var nextDivStart := IndexOf(b, DivOpen, pos);
      var nextDivEnd := IndexOf(b, DivClose, pos);
      if nextDivEnd == -1 {
        CloseMissing(b, lo, pos, depth, target);
        break;
      }
      if nextDivStart != -1 && nextDivStart < nextDivEnd {
        OpenFirst(b, lo, pos, depth, target, nextDivStart, nextDivEnd);
        depth := depth + 1;
        pos := nextDivStart + 4;
      } else {
        CloseFirst(b, lo, pos, depth, target, nextDivStart, nextDivEnd);
        depth := depth - 1;
        if depth == 0 {
          return nextDivEnd + 6;
        }
        pos := nextDivEnd + 6;
      }
    }
    return -1;
  }

  /**
   * The nearest `<div` (`ds`) and `</div>` (`de`) at or after `pos`: no token
   * starts before the nearer of the two.
   */
  lemma NearestTokens(b: string, pos: nat, ds: int, de: int)
    requires ds == IndexOf(b, DivOpen, pos) && de == IndexOf(b, DivClose, pos)
    ensures ds != -1 ==> pos <= ds && OpenAt(b, ds)
    ensures de != -1 ==> pos <= de && CloseAt(b, de)
    ensures de == -1 ==> forall q :: pos <= q ==> !CloseAt(b, q)
    ensures ds != -1 && (de == -1 || ds < de) ==> NoTokens(b, pos, ds)
    ensures de != -1 && !(ds != -1 && ds < de) ==> NoTokens(b, pos, de)
  {
    if ds != -1 { TokenOccurs(b, ds); }
    if de != -1 { TokenOccurs(b, de); TokensDiffer(b, de); }
    forall q | pos <= q
      ensures (ds == -1 || q < ds) ==> !OpenAt(b, q)
      ensures (de == -1 || q < de) ==> !CloseAt(b, q)
    {
      TokenOccurs(b, q);
    }
  }

  /** Reaching a token at `t` over a token-free stretch: the token's effect on the depth. */
  lemma ReachToken(b: string, lo: nat, pos: nat, t: nat)
    requires lo <= pos <= t
    requires NoTokens(b, pos, t)
    ensures Depth(b, lo, t + 1) == Depth(b, lo, pos) + Step(b, t)
    ensures MatchingClose(b, lo, pos) == MatchingClose(b, lo, t)
  {
    SkipGap(b, lo, pos, t);
  }

  /** Taking the nearest `<div` at `ds` raises the depth and keeps the answer. */
  lemma DivOpenStep(b: string, lo: nat, pos: nat, ds: nat)
    requires lo <= pos <= ds && OpenAt(b, ds)
    requires NoTokens(b, pos, ds)
    ensures ds + 4 <= |b|
    ensures Depth(b, lo, ds + 4) == Depth(b, lo, pos) + 1
    ensures MatchingClose(b, lo, ds + 4) == MatchingClose(b, lo, pos)
  {
    ReachToken(b, lo, pos, ds);
    TokensDiffer(b, ds);
    assert MatchingClose(b, lo, ds) == MatchingClose(b, lo, ds + 1);
    NoTokensInside(b, ds);
    SkipGap(b, lo, ds + 1, ds + 4);
  }

  /**
   * Taking the nearest `</div>` at `de` lowers the depth; when the depth stays
   * positive the answer is unchanged past it, and when it reaches 0 the answer is `de + 6`.
   */
  lemma DivCloseStep(b: string, lo: nat, pos: nat, de: nat)
    requires lo <= pos <= de && CloseAt(b, de)
    requires NoTokens(b, pos, de)
    ensures de + 6 <= |b|
    ensures Depth(b, lo, de + 6) == Depth(b, lo, pos) - 1
    ensures Depth(b, lo, pos) == 1 ==> MatchingClose(b, lo, pos) == de + 6
    ensures Depth(b, lo, pos) != 1 ==> MatchingClose(b, lo, de + 6) == MatchingClose(b, lo, pos)
  {
    ReachToken(b, lo, pos, de);
    TokensDiffer(b, de);
    NoTokensInside(b, de);
    SkipGap(b, lo, de + 1, de + 6);
    if Depth(b, lo, pos) != 1 {
      assert MatchingClose(b, lo, de) == MatchingClose(b, lo, de + 1);
    }
  }
}
