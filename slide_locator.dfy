/**
 * `ImageInserter.findCurrentSlide`: every exact `<div class="slide">` in the
 * buffer, in document order, paired with its end from `findSlideEnd`;
 * unterminated ones are dropped, and the first span holding the cursor
 * (both ends inclusive) is the current slide.
 */
module SlideLocator {
  import opened Text
  import opened SpanFinder

  /** A located slide: `content` is the buffer between `start` and `end`. */
  datatype Slide = Slide(start: nat, end: nat, content: string)

  /** The exact slide marker starts at `i`. */
  predicate MarkerAt(b: string, i: nat) {
    OccursAt(b, SlideMarker, i)
  }

  /** The marker holds exactly one `<`, its first character. */
  lemma MarkerChars(b: string, i: nat)
    requires MarkerAt(b, i)
    ensures b[i] == '<' && b[i + 18] == '>'
    ensures forall j :: i < j < i + |SlideMarker| ==> b[j] != '<'
  {
    OccursAtChars(b, SlideMarker, i);
  }

  /** Two markers never overlap. */
  lemma MarkersApart(b: string, i: nat, j: nat)
    requires MarkerAt(b, i) && MarkerAt(b, j) && i < j
    ensures i + |SlideMarker| <= j
  {
    MarkerChars(b, i);
    MarkerChars(b, j);
  }

  /** The offsets of all markers at or after `p`, in increasing order. */
  function MarkersFrom(b: string, p: nat): seq<nat>
    decreases |b| - p
  {
    if p + |SlideMarker| > |b| then []
    else if MarkerAt(b, p) then [p] + MarkersFrom(b, p + 1)
    else MarkersFrom(b, p + 1)
  }

  /** `MarkersFrom` lists exactly the markers at or after `p`, in increasing order. */
  lemma {:induction false} MarkersFromSpec(b: string, p: nat)
    decreases |b| - p
    ensures var ms := MarkersFrom(b, p);
            (forall i :: 0 <= i < |ms| ==> p <= ms[i] && MarkerAt(b, ms[i])) &&
            (forall m :: p <= m && MarkerAt(b, m) ==> m in ms) &&
            Increasing(ms)
  {
    if p + |SlideMarker| <= |b| {
      MarkersFromSpec(b, p + 1);
    }
  }

  /** Every marker of the buffer, in document order. */
  function Markers(b: string): seq<nat> {
    MarkersFrom(b, 0)
  }

  /** A stretch without a marker start does not change the markers from there on. */
  lemma {:induction false} MarkersSkip(b: string, p: nat, t: nat)
    requires p <= t
    requires forall q :: p <= q < t ==> !MarkerAt(b, q)
    ensures MarkersFrom(b, p) == MarkersFrom(b, t)
    decreases t - p
  {
    if p < t {
      MarkersSkip(b, p + 1, t);
    }
  }

  /**
   * The regular expression's next match from `lastIndex` is the first marker
   * in what is left, and the search resumes just past it.
   */
  lemma MarkersNext(b: string, lastIndex: nat, m: int)
    requires m == IndexOf(b, SlideMarker, lastIndex)
    ensures m == -1 ==> MarkersFrom(b, lastIndex) == []
    ensures m != -1 ==>
              lastIndex <= m && m + |SlideMarker| <= |b| &&
              MarkersFrom(b, lastIndex) == [m] + MarkersFrom(b, m + |SlideMarker|)
  {
    if m == -1 {
      if lastIndex <= |b| {
        MarkersSkip(b, lastIndex, |b|);
      }
    } else {
      MarkersSkip(b, lastIndex, m);
      forall q | m + 1 <= q < m + |SlideMarker| ensures !MarkerAt(b, q) {
        MarkerChars(b, m);
        if MarkerAt(b, q) {
          MarkerChars(b, q);
        }
      }
      MarkersSkip(b, m + 1, m + |SlideMarker|);
    }
  }

  /** The terminated slides among the markers `ms`, in the same order. */
  function SlidesOf(b: string, ms: seq<nat>): seq<Slide> {
    if ms == [] then []
    else
      var e := SlideEnd(b, ms[0]);
      (if e == -1 then [] else [Slide(ms[0], e, b[ms[0]..e])]) + SlidesOf(b, ms[1..])
  }

  /** Every terminated slide of the buffer, in document order. */
  function Slides(b: string): seq<Slide> {
    SlidesOf(b, Markers(b))
  }

  predicate Holds(sl: Slide, cursor: int) {
    sl.start <= cursor <= sl.end
  }

  /** The first of `ss` that holds the cursor. */
  function FirstHolding(ss: seq<Slide>, cursor: int): Option<Slide> {
    if ss == [] then None
    else if Holds(ss[0], cursor) then Some(ss[0])
    else FirstHolding(ss[1..], cursor)
  }

  /** The slide `findCurrentSlide` answers with, or `None` (JavaScript's `null`). */
  function Locate(b: string, cursor: int): Option<Slide> {
    FirstHolding(Slides(b), cursor)
  }

  /** The terminated slide of the marker at `m` holds the cursor. */
  predicate Encloses(b: string, m: nat, cursor: int) {
    var e := SlideEnd(b, m);
    e != -1 && m <= cursor <= e
  }

  predicate Increasing(ms: seq<nat>) {
    forall i, j :: 0 <= i < j < |ms| ==> ms[i] < ms[j]
  }

  /**
   * The first of the markers `ms` whose terminated slide holds the cursor:
   * it encloses the cursor, and every marker of `ms` that encloses it lies at
   * or after it (so `None` exactly when none does).
   */
  function FirstEnclosing(b: string, ms: seq<nat>, cursor: int): (r: Option<nat>)
    requires Increasing(ms)
    ensures r.Some? ==> r.value in ms && Encloses(b, r.value, cursor)
    ensures forall i :: 0 <= i < |ms| && Encloses(b, ms[i], cursor) ==> r.Some? && r.value <= ms[i]
  {
    if ms == [] then None
    else if Encloses(b, ms[0], cursor) then Some(ms[0])
    else FirstEnclosing(b, ms[1..], cursor)
  }

  /** The slide located for the marker at `m`. */
  function SlideAt(b: string, m: nat): Slide
    requires SlideEnd(b, m) != -1
  {
    Slide(m, SlideEnd(b, m), b[m..SlideEnd(b, m)])
  }

  /** The slide of the marker `f`, if any. */
  function SlideOf(b: string, f: Option<nat>): Option<Slide>
    requires f.Some? ==> SlideEnd(b, f.value) != -1
  {
    if f.None? then None else Some(SlideAt(b, f.value))
  }

  /** A well-formed located slide of the marker at `sl.start`. */
  predicate WellFormed(b: string, sl: Slide) {
    MarkerAt(b, sl.start) && sl.end == SlideEnd(b, sl.start) && sl.end != -1
    && sl.start + 25 <= sl.end <= |b| && sl.content == b[sl.start..sl.end]
  }

  /**
   * Filtering out unterminated slides and then taking the first that holds
   * the cursor picks the slide of the first marker that encloses it.
   */
  lemma {:induction false} FirstHoldingOfMarkers(b: string, ms: seq<nat>, cursor: int)
    requires Increasing(ms)
    ensures FirstHolding(SlidesOf(b, ms), cursor) == SlideOf(b, FirstEnclosing(b, ms, cursor))
  {
    if ms != [] {
      FirstHoldingOfMarkers(b, ms[1..], cursor);
      var e := SlideEnd(b, ms[0]);
      assert ms == [ms[0]] + ms[1..];
      SlidesOfCons(b, ms[0], ms[1..], e);
      if e != -1 {
        var sl := SlideAt(b, ms[0]);
        FirstHoldingCons(sl, SlidesOf(b, ms[1..]), cursor);
      } else {
        assert SlidesOf(b, ms) == SlidesOf(b, ms[1..]);
      }
    }
  }

  lemma FirstHoldingCons(sl: Slide, rest: seq<Slide>, cursor: int)
    ensures FirstHolding([sl] + rest, cursor) ==
              if Holds(sl, cursor) then Some(sl) else FirstHolding(rest, cursor)
  {
    assert ([sl] + rest)[1..] == rest;
  }

  /** `sl` is the slide `findCurrentSlide` should answer for the cursor. */
  ghost predicate IsCurrent(b: string, sl: Slide, cursor: int) {
    WellFormed(b, sl) && Holds(sl, cursor)
    && forall m: nat :: MarkerAt(b, m) && m < sl.start ==> !Encloses(b, m, cursor)
  }

  /** `findCurrentSlide` answers `null` exactly when no terminated slide encloses the cursor. */
  lemma LocateNone(b: string, cursor: int)
    ensures Locate(b, cursor).None? <==> forall m :: MarkerAt(b, m) ==> !Encloses(b, m, cursor)
  {
    var ms := Markers(b);
    MarkersFromSpec(b, 0);
    FirstHoldingOfMarkers(b, ms, cursor);
    forall m | MarkerAt(b, m) && Encloses(b, m, cursor)
      ensures FirstEnclosing(b, ms, cursor).Some?
    {
      assert m in ms;
    }
  }

  /**
   * Otherwise it answers the terminated slide holding the cursor (both ends
   * inclusive) before which no other terminated slide holds it: a cursor on a
   * boundary shared by two slides goes to the earlier one.
   */
  lemma LocateSome(b: string, cursor: int)
    requires Locate(b, cursor).Some?
    ensures IsCurrent(b, Locate(b, cursor).value, cursor)
  {
    var ms := Markers(b);
    MarkersFromSpec(b, 0);
    FirstHoldingOfMarkers(b, ms, cursor);
    var f := FirstEnclosing(b, ms, cursor);
    forall m | MarkerAt(b, m) && Encloses(b, m, cursor) ensures f.value <= m {
      assert m in ms;
    }
  }

  /** A located slide's content starts with the marker and ends with `</div>`. */
  lemma SlideShape(b: string, sl: Slide)
    requires WellFormed(b, sl)
    ensures |sl.content| >= 25
    ensures sl.content[..|SlideMarker|] == SlideMarker
    ensures sl.content[|sl.content| - 6..] == DivClose
  {
    assert sl.content[..|SlideMarker|] == b[sl.start..sl.end][..19] == b[sl.start..sl.start + 19];
    assert sl.content[|sl.content| - 6..] == b[sl.start..sl.end][sl.end - sl.start - 6..] == b[sl.end - 6..sl.end];
    TokenOccurs(b, sl.end - 6);
  }

  /** A buffer without an exact marker has no current slide, wherever the cursor is. */
  lemma NoMarkerNoSlide(b: string, cursor: int)
    requires forall m :: !MarkerAt(b, m)
    ensures Locate(b, cursor) == None
  {
    LocateNone(b, cursor);
  }

  /** The terminated slides of the markers at or after `p`. */
  function SlidesFrom(b: string, p: nat): seq<Slide> {
    SlidesOf(b, MarkersFrom(b, p))
  }

  /**
   * The collection loop's invariant: the slides gathered so far followed by
   * those of the markers from `lastIndex` on are all the buffer's slides.
   */
  ghost predicate Collected(b: string, all: seq<Slide>, slides: seq<Slide>, lastIndex: nat) {
    lastIndex <= |b| && all == slides + SlidesFrom(b, lastIndex)
  }

  /** The slides of a marker followed by further markers. */
  lemma SlidesOfCons(b: string, m: nat, rest: seq<nat>, end: int)
    requires end == SlideEnd(b, m)
    ensures SlidesOf(b, [m] + rest) ==
              (if end == -1 then [] else [Slide(m, end, b[m..end])]) + SlidesOf(b, rest)
  {
    assert ([m] + rest)[1..] == rest;
  }

  /** The slides from `lastIndex` on: the next marker's, if terminated, then the rest. */
  lemma SlidesFromNext(b: string, lastIndex: nat, start: nat, end: int)
    requires start == IndexOf(b, SlideMarker, lastIndex)
    requires end == SlideEnd(b, start)
    ensures lastIndex < start + |SlideMarker| <= |b|
    ensures SlidesFrom(b, lastIndex) ==
              (if end == -1 then [] else [Slide(start, end, b[start..end])])
              + SlidesFrom(b, start + |SlideMarker|)
  {
    MarkersNext(b, lastIndex, start);
    SlidesOfCons(b, start, MarkersFrom(b, start + |SlideMarker|), end);
  }

  /** The search found no further marker: every slide has been collected. */
  lemma CollectDone(b: string, all: seq<Slide>, slides: seq<Slide>, lastIndex: nat)
    requires Collected(b, all, slides, lastIndex)
    requires IndexOf(b, SlideMarker, lastIndex) == -1
    ensures all == slides
  {
    MarkersNext(b, lastIndex, -1);
  }

  /** The next marker is unterminated: it is passed over. */
  lemma CollectSkip(b: string, all: seq<Slide>, slides: seq<Slide>, lastIndex: nat, start: nat)
    requires Collected(b, all, slides, lastIndex)
    requires start == IndexOf(b, SlideMarker, lastIndex) && SlideEnd(b, start) == -1
    ensures lastIndex < start + |SlideMarker| && Collected(b, all, slides, start + |SlideMarker|)
  {
    SlidesFromNext(b, lastIndex, start, -1);
    assert [] + SlidesFrom(b, start + |SlideMarker|) == SlidesFrom(b, start + |SlideMarker|);
  }

  /** The next marker is terminated: its slide is collected. */
  lemma CollectTake(b: string, all: seq<Slide>, slides: seq<Slide>, lastIndex: nat, start: nat, end: int)
    requires Collected(b, all, slides, lastIndex)
    requires start == IndexOf(b, SlideMarker, lastIndex)
    requires end == SlideEnd(b, start) && end != -1
    ensures lastIndex < start + |SlideMarker| && start <= end <= |b|
    ensures Collected(b, all, slides + [Slide(start, end, b[start..end])], start + |SlideMarker|)
  {
    SlidesFromNext(b, lastIndex, start, end);
    var sl := Slide(start, end, b[start..end]);
    var rest := SlidesFrom(b, start + |SlideMarker|);
    assert slides + ([sl] + rest) == (slides + [sl]) + rest;
  }

  /** `ImageInserter.findCurrentSlide`. */
  method FindCurrentSlide(b: string, cursorPos: int) returns (r: Option<Slide>)
    ensures r == Locate(b, cursorPos)
  {
    var slides: seq<Slide> := [];
    var lastIndex: nat := 0;
    ghost var all := Slides(b);
    while true
      invariant Collected(b, all, slides, lastIndex)
      decreases |b| - lastIndex
    {
      var start := IndexOf(b, SlideMarker, lastIndex);
      if start == -1 {
        CollectDone(b, all, slides, lastIndex);
        break;
      }
      var end := FindSlideEnd(b, start);
      if end != -1 {
        CollectTake(b, all, slides, lastIndex, start, end);
        slides := slides + [Slide(start, end, b[start..end])];
      } else {
        CollectSkip(b, all, slides, lastIndex, start);
      }
      lastIndex := start + |SlideMarker|;
    }
    for i := 0 to |slides|
      invariant FirstHolding(slides[i..], cursorPos) == FirstHolding(slides, cursorPos)
    {
      if cursorPos >= slides[i].start && cursorPos <= slides[i].end {
        return Some(slides[i]);
      }
      assert slides[i..][1..] == slides[i + 1..];
    }
    return None;
  }
}
