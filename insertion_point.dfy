/**
 * `SlideTemplates.findSlideInsertPosition`: where a new slide goes. Every
 * exact `<div class="slide">` is listed, each one's end is found by the same
 * paired `<div` / `</div>` search as `findSlideEnd` (written out again in the
 * source), and the answer is the end of the first terminated slide holding
 * the cursor, else the end of the last slide if it is terminated, else the
 * end of the buffer.
 */
module InsertionPoint {
  import opened Text
  import opened SpanFinder
  import opened SlideLocator

  /** One entry of `slidePositions`: a marker offset and its end, -1 until found or when unterminated. */
  datatype Position = Position(start: nat, end: int)

  /** The last marker of the buffer, when there is one. */
  function LastMarker(b: string): (r: Option<nat>)
    ensures r.Some? <==> Markers(b) != []
    ensures r.Some? ==> r.value == Markers(b)[|Markers(b)| - 1]
  {
    var ms := Markers(b);
    if ms == [] then None else Some(ms[|ms| - 1])
  }

  /**
   * The offset `findSlideInsertPosition` answers: the end of the first
   * terminated slide holding the cursor (both ends inclusive); else the end
   * of the last slide, when that one is terminated; else the buffer's length.
   */
  function InsertPosition(b: string, cursor: int): (r: nat)
    ensures r <= |b|
  {
    MarkersFromSpec(b, 0);
    match FirstEnclosing(b, Markers(b), cursor)
    case Some(m) => SlideEnd(b, m)
    case None =>
      match LastMarker(b)
      case Some(m) => if SlideEnd(b, m) != -1 then SlideEnd(b, m) else |b|
      case None => |b|
  }

  /**
   * When the cursor is in a slide, the new slide goes right after the slide
   * `findCurrentSlide` locates for the same cursor.
   */
  lemma InsertAfterCurrent(b: string, cursor: int)
    requires Locate(b, cursor).Some?
    ensures InsertPosition(b, cursor) == Locate(b, cursor).value.end
  {
    MarkersFromSpec(b, 0);
    FirstHoldingOfMarkers(b, Markers(b), cursor);
  }

  /**
   * When the cursor is in no slide, the new slide goes after the last slide
   * if that one is terminated, and at the end of the buffer otherwise.
   */
  lemma InsertOutsideSlides(b: string, cursor: int)
    requires Locate(b, cursor).None?
    ensures LastMarker(b).Some? && SlideEnd(b, LastMarker(b).value) != -1 ==>
              InsertPosition(b, cursor) == SlideEnd(b, LastMarker(b).value)
    ensures LastMarker(b).None? || SlideEnd(b, LastMarker(b).value) == -1 ==>
              InsertPosition(b, cursor) == |b|
  {
    MarkersFromSpec(b, 0);
    FirstHoldingOfMarkers(b, Markers(b), cursor);
  }

  /**
   * The insertion point is never inside a tag: it is the end of the buffer
   * or just past the `</div>` that closes some slide.
   */
  lemma InsertAtBoundary(b: string, cursor: int)
    ensures var r := InsertPosition(b, cursor);
            r == |b| || exists m: nat :: MarkerAt(b, m) && SlideEnd(b, m) == r
  {
    MarkersFromSpec(b, 0);
    var ms := Markers(b);
    match FirstEnclosing(b, ms, cursor)
    case Some(m) =>
      assert MarkerAt(b, m);
    case None =>
      if ms != [] {
        assert MarkerAt(b, ms[|ms| - 1]);
      }
  }

  /** The answer when some terminated slide holds the cursor. */
  lemma InsertInside(b: string, cursor: int, m: nat)
    requires Increasing(Markers(b)) && FirstEnclosing(b, Markers(b), cursor) == Some(m)
    ensures InsertPosition(b, cursor) == SlideEnd(b, m)
  {
  }

  /** The answer when no terminated slide holds the cursor. */
  lemma InsertAfterLast(b: string, cursor: int)
    requires Increasing(Markers(b)) && FirstEnclosing(b, Markers(b), cursor).None?
    ensures var ms := Markers(b);
            InsertPosition(b, cursor) ==
              if ms != [] && SlideEnd(b, ms[|ms| - 1]) != -1 then SlideEnd(b, ms[|ms| - 1]) else |b|
  {
  }

  /** One more match of the marker expression: the markers listed so far grow by it. */
  lemma MarkerCollected(b: string, starts: seq<nat>, lastIndex: nat, m: int)
    requires starts + MarkersFrom(b, lastIndex) == Markers(b)
    requires m == IndexOf(b, SlideMarker, lastIndex)
    ensures m == -1 ==> starts == Markers(b)
    ensures m != -1 ==>
              lastIndex < m + |SlideMarker| <= |b| &&
              (starts + [m]) + MarkersFrom(b, m + |SlideMarker|) == Markers(b)
  {
    MarkersNext(b, lastIndex, m);
    if m != -1 {
      assert starts + ([m] + MarkersFrom(b, m + |SlideMarker|)) == (starts + [m]) + MarkersFrom(b, m + |SlideMarker|);
    }
  }

  /** The entries of `ps` are the markers `ms` with their ends found below `i`. */
  ghost predicate EndsFound(b: string, ms: seq<nat>, ps: seq<Position>, i: nat) {
    |ps| == |ms| && i <= |ps| &&
    (forall k :: 0 <= k < |ps| ==> ps[k].start == ms[k]) &&
    (forall k :: 0 <= k < i ==> ps[k].end == SlideEnd(b, ms[k]))
  }

  /** Recording the end of entry `i` extends the found ends by one. */
  lemma EndFound(b: string, ms: seq<nat>, ps: seq<Position>, i: nat, end: int)
    requires EndsFound(b, ms, ps, i) && i < |ps| && end == SlideEnd(b, ps[i].start)
    ensures EndsFound(b, ms, ps[i := Position(ps[i].start, end)], i + 1)
  {
  }

  /** The first entry from `i` on whose terminated slide holds the cursor is the answer's. */
  lemma {:induction false} SearchStep(b: string, ms: seq<nat>, ps: seq<Position>, i: nat, cursor: int)
    requires Increasing(ms) && EndsFound(b, ms, ps, |ps|) && i < |ps|
    ensures Increasing(ms[i + 1..])
    ensures FirstEnclosing(b, ms[i..], cursor) ==
              if ps[i].end != -1 && ps[i].start <= cursor <= ps[i].end then Some(ms[i])
              else FirstEnclosing(b, ms[i + 1..], cursor)
  {
    assert ms[i..][1..] == ms[i + 1..];
  }

  /**
   * The body of the `forEach` callback in `findSlideInsertPosition`: its own
   * copy of the paired `<div` / `</div>` search, which leaves the end at -1
   * unless the depth reaches 0. It finds the same end as `findSlideEnd`.
   */
  method DepthSearch(b: string, start: nat) returns (end: int)
    ensures end == SlideEnd(b, start)
  {
    end := -1;
    var depth := 1;
    var searchPos: nat := start + |SlideMarker|;
    ghost var lo, target := searchPos, SlideEnd(b, start);
    while depth > 0 && searchPos < |b|
      invariant depth == 0 ==> end == target
      invariant depth != 0 ==> Scanning(b, lo, searchPos, depth, target) && end == -1
      decreases |b| - searchPos
    {
      var nextDivStart := IndexOf(b, DivOpen, searchPos);
      var nextDivEnd := IndexOf(b, DivClose, searchPos);
      if nextDivEnd == -1 {
        CloseMissing(b, lo, searchPos, depth, target);
        break;
      }
      if nextDivStart != -1 && nextDivStart < nextDivEnd {
        OpenFirst(b, lo, searchPos, depth, target, nextDivStart, nextDivEnd);
        depth := depth + 1;
        searchPos := nextDivStart + 4;
      } else {
        CloseFirst(b, lo, searchPos, depth, target, nextDivStart, nextDivEnd);
        depth := depth - 1;
        if depth == 0 {
          end := nextDivEnd + 6;
          break;
        }
        searchPos := nextDivEnd + 6;
      }
    }
  }

  /** The markers come in document order. */
  lemma MarkersIncreasing(b: string)
    ensures Increasing(Markers(b))
  {
    MarkersFromSpec(b, 0);
  }

  /** With no entry holding the cursor, the answer comes from the last entry, or is the buffer's length. */
  lemma LastEntry(b: string, ms: seq<nat>, ps: seq<Position>, cursor: int)
    requires ms == Markers(b) && Increasing(ms) && EndsFound(b, ms, ps, |ps|)
    requires Increasing(ms[|ps|..])
    requires FirstEnclosing(b, ms[|ps|..], cursor) == FirstEnclosing(b, ms, cursor)
    ensures InsertPosition(b, cursor) ==
              if |ps| > 0 && ps[|ps| - 1].end != -1 then ps[|ps| - 1].end else |b|
  {
    assert ms[|ps|..] == [];
    InsertAfterLast(b, cursor);
  }

  /**
   * The first loop of `findSlideInsertPosition`: one entry per exact marker,
   * found by the global regular expression's successive matches, in document
   * order and with its end still -1.
   */
  method CollectPositions(b: string) returns (slidePositions: seq<Position>)
    ensures EndsFound(b, Markers(b), slidePositions, 0)
    ensures forall k :: 0 <= k < |slidePositions| ==> slidePositions[k].end == -1
  {
    ghost var starts: seq<nat> := [];
    slidePositions := [];
    var lastIndex: nat := 0;
    while true
      invariant lastIndex <= |b| && starts + MarkersFrom(b, lastIndex) == Markers(b)
      invariant EndsFound(b, starts, slidePositions, 0)
      invariant forall k :: 0 <= k < |slidePositions| ==> slidePositions[k].end == -1
      decreases |b| - lastIndex
    {
      var m := IndexOf(b, SlideMarker, lastIndex);
      MarkerCollected(b, starts, lastIndex, m);
      if m == -1 {
        break;
      }
      starts := starts + [m];
      slidePositions := slidePositions + [Position(m, -1)];
      lastIndex := m + |SlideMarker|;
    }
  }

  /** The `forEach` pass of `findSlideInsertPosition`: every entry gets its slide's end. */
  method FindEnds(b: string, positions: seq<Position>) returns (slidePositions: seq<Position>)
    requires EndsFound(b, Markers(b), positions, 0)
    ensures EndsFound(b, Markers(b), slidePositions, |slidePositions|)
  {
    ghost var starts := Markers(b);
    slidePositions := positions;
    for i := 0 to |slidePositions|
      invariant EndsFound(b, starts, slidePositions, i)
    {
      var slide := slidePositions[i];
      var end := DepthSearch(b, slide.start);
      EndFound(b, starts, slidePositions, i, end);
      slidePositions := slidePositions[i := Position(slide.start, end)];
    }
  }

  /** `SlideTemplates.findSlideInsertPosition`, loop for loop. */
  method FindSlideInsertPosition(b: string, cursorPosition: int) returns (r: int)
    ensures r == InsertPosition(b, cursorPosition)
  {
    var slidePositions := CollectPositions(b);
    ghost var starts := Markers(b);
    MarkersIncreasing(b);

    slidePositions := FindEnds(b, slidePositions);

    // the first terminated slide holding the cursor
    for i := 0 to |slidePositions|
      invariant Increasing(starts[i..])
      invariant FirstEnclosing(b, starts[i..], cursorPosition) == FirstEnclosing(b, starts, cursorPosition)
    {
      var slide := slidePositions[i];
      SearchStep(b, starts, slidePositions, i, cursorPosition);
      if slide.end != -1 && cursorPosition >= slide.start && cursorPosition <= slide.end {
        InsertInside(b, cursorPosition, slide.start);
        return slide.end;
      }
    }
    LastEntry(b, starts, slidePositions, cursorPosition);

    // otherwise after the last slide, when it is terminated
    if |slidePositions| > 0 {
      var lastSlide := slidePositions[|slidePositions| - 1];
      if lastSlide.end != -1 {
        return lastSlide.end;
      }
    }
    return |b|;
  }
}
