/**
 * `ImageInserter.convertToSplitLayout`: a slide's text is cut into its
 * title, its footer and the rest, and rebuilt as a two-column slide with the
 * image on the right. Each regular expression it uses is modelled by the
 * match it makes at one offset (`...Attempt`) and by the leftmost-match scan
 * a JavaScript `match` performs (`...Scan`); lemmas show that each scan is
 * decided by the first occurrence of the expression's literal prefix.
 */
module SplitLayout {
  import opened Text
  import opened SpanFinder

  /** The literal start of the wrapper expression `<div class="slide"[^>]*>`. */
  const WrapperOpen := "<div class=\"slide\""
  /** The opening tag of a footer block. */
  const FooterOpen := "<div class=\"footer\">"
  const TitleOpen := "<h1"
  const TitleClose := "</h1>"
  /** The opening tag of a converted slide. */
  const SplitOpen := "<div class=\"slide slide-split\">"
  /** `ImageInserter.imagesFolder`. */
  const ImagesFolder := "images/"

  // ---------------------------------------------------------------------
  // The wrapper: /<div class="slide"[^>]*>([\s\S]*)<\/div>$/
  // ---------------------------------------------------------------------

  /** `s` ends with `</div>`, as the anchored tail of the wrapper demands. */
  predicate EndsWithClose(s: string) {
    |s| >= 6 && OccursAt(s, DivClose, |s| - 6)
  }

  /**
   * The wrapper tried at offset `i`: `[^>]*>` reaches the first `>` at or
   * after the literal, and the greedy group then runs up to the final
   * `</div>`. The answer is where the group starts.
   */
  function WrapperAttempt(s: string, i: nat): (r: Option<nat>)
    ensures r.Some? ==>
              OccursAt(s, WrapperOpen, i) && EndsWithClose(s) &&
              i + |WrapperOpen| < r.value <= |s| - 6 && s[r.value - 1] == '>'
  {
    if !OccursAt(s, WrapperOpen, i) || !EndsWithClose(s) then None
    else
      var g := IndexOf(s, ">", i + |WrapperOpen|);
      if g != -1 && g + 1 <= |s| - 6 then
        OccursAtChars(s, ">", g);
        Some(g + 1)
      else None
  }

  /**
   * The wrapper matches at `i` exactly when its literal is there, the text
   * ends with `</div>`, and some `>` lies between the literal and that final
   * `</div>`; the group then starts right after the first such `>`.
   */
  lemma WrapperAttemptMeaning(s: string, i: nat)
    ensures WrapperAttempt(s, i).Some? <==>
              OccursAt(s, WrapperOpen, i) && EndsWithClose(s) &&
              exists g :: i + |WrapperOpen| <= g < |s| - 6 && s[g] == '>'
    ensures WrapperAttempt(s, i).Some? ==>
              forall q :: i + |WrapperOpen| <= q < WrapperAttempt(s, i).value - 1 ==> s[q] != '>'
  {
    var from := i + |WrapperOpen|;
    if OccursAt(s, WrapperOpen, i) && EndsWithClose(s) {
      var g := IndexOf(s, ">", from);
      forall q | from <= q < |s| && s[q] == '>' ensures g != -1 && g <= q {
        assert s[q..q + 1] == ">";
        assert OccursAt(s, ">", q);
      }
      forall q | from <= q < (if g == -1 then from else g) ensures s[q] != '>' {
        assert s[q..q + 1] == [s[q]];
      }
      if g != -1 {
        OccursAtChars(s, ">", g);
      }
    }
  }

  /** The leftmost match at or after `p`, as `String.prototype.match` finds it. */
  function WrapperScan(s: string, p: nat): Option<nat>
    decreases |s| - p
  {
    if p >= |s| then None
    else if WrapperAttempt(s, p).Some? then WrapperAttempt(s, p)
    else WrapperScan(s, p + 1)
  }

  /**
   * Once the wrapper fails at an occurrence of its literal, it fails at every
   * later offset too: a later attempt reaches the same or a later `>`.
   */
  lemma {:induction false} WrapperFailsOnward(s: string, i: nat, j: nat)
    requires OccursAt(s, WrapperOpen, i) && WrapperAttempt(s, i) == None && i <= j
    ensures WrapperScan(s, j) == None
    decreases |s| - j
  {
    if j < |s| {
      WrapperFailsOnward(s, i, j + 1);
    }
  }

  /** The wrapper matches, if at all, at the first occurrence of its literal. */
  lemma {:induction false} WrapperScanFirst(s: string, p: nat)
    decreases |s| - p
    ensures WrapperScan(s, p) ==
              var i := IndexOf(s, WrapperOpen, p);
              if i == -1 then None else WrapperAttempt(s, i)
  {
    if p < |s| {
      WrapperScanFirst(s, p + 1);
      if OccursAt(s, WrapperOpen, p) && WrapperAttempt(s, p) == None {
        WrapperFailsOnward(s, p, p + 1);
      }
    }
  }

  // ---------------------------------------------------------------------
  // Lazy fragments: /<div class="footer">[\s\S]*?<\/div>/ and
  // /<h1[^>]*>[\s\S]*?<\/h1>/
  // ---------------------------------------------------------------------

  /**
   * Where the lazy body of a fragment starting at `i` begins: right after
   * the opening literal, or, when the literal is followed by `[^>]*>`,
   * right after the first `>` at or after it; -1 when there is none.
   */
  function BodyStart(s: string, open: string, skipTag: bool, i: nat): (r: int)
    ensures r == -1 || i + |open| <= r
  {
    if !skipTag then i + |open|
    else
      var g := IndexOf(s, ">", i + |open|);
      if g == -1 then -1 else g + 1
  }

  /**
   * The fragment expression tried at `i`: its literal, then the lazy body up
   * to the first `close` after the body start. The answer is the match's end.
   */
  function FragmentAttempt(s: string, open: string, skipTag: bool, close: string, i: nat): (r: Option<nat>)
    requires close != []
    ensures r.Some? ==>
              OccursAt(s, open, i) && BodyStart(s, open, skipTag, i) != -1 &&
              BodyStart(s, open, skipTag, i) + |close| <= r.value <= |s| &&
              OccursAt(s, close, r.value - |close|) &&
              forall q :: BodyStart(s, open, skipTag, i) <= q < r.value - |close| ==> !OccursAt(s, close, q)
  {
    if !OccursAt(s, open, i) then None
    else
      var h := BodyStart(s, open, skipTag, i);
      if h == -1 then None
      else
        var c := IndexOf(s, close, h);
        if c == -1 then None else Some(c + |close|)
  }

  /** The leftmost fragment match at or after `p`: its start and its end. */
  function FragmentScan(s: string, open: string, skipTag: bool, close: string, p: nat): (r: Option<(nat, nat)>)
    requires close != []
    decreases |s| - p
    ensures r.Some? ==>
              p <= r.value.0 && r.value.0 + |open| + |close| <= r.value.1 <= |s| &&
              FragmentAttempt(s, open, skipTag, close, r.value.0) == Some(r.value.1)
  {
    if p >= |s| then None
    else
      var a := FragmentAttempt(s, open, skipTag, close, p);
      if a.Some? then Some((p, a.value)) else FragmentScan(s, open, skipTag, close, p + 1)
  }

  /** A later attempt starts its body no earlier, so it cannot find a closing literal either. */
  lemma {:induction false} FragmentFailsOnward(s: string, open: string, skipTag: bool, close: string, i: nat, j: nat)
    requires close != []
    requires OccursAt(s, open, i) && FragmentAttempt(s, open, skipTag, close, i) == None && i <= j
    ensures FragmentScan(s, open, skipTag, close, j) == None
    decreases |s| - j
  {
    if j < |s| {
      var hi := BodyStart(s, open, skipTag, i);
      var hj := BodyStart(s, open, skipTag, j);
      assert hj == -1 || (hi != -1 && hi <= hj);
      FragmentFailsOnward(s, open, skipTag, close, i, j + 1);
    }
  }

  /** The fragment matches, if at all, at the first occurrence of its opening literal. */
  lemma {:induction false} FragmentScanFirst(s: string, open: string, skipTag: bool, close: string, p: nat)
    requires open != [] && close != []
    decreases |s| - p
    ensures FragmentScan(s, open, skipTag, close, p) ==
              var i := IndexOf(s, open, p);
              if i == -1 || FragmentAttempt(s, open, skipTag, close, i).None? then None
              else Some((i as nat, FragmentAttempt(s, open, skipTag, close, i).value))
  {
    if p < |s| {
      FragmentScanFirst(s, open, skipTag, close, p + 1);
      if OccursAt(s, open, p) && FragmentAttempt(s, open, skipTag, close, p) == None {
        FragmentFailsOnward(s, open, skipTag, close, p, p + 1);
      }
    }
  }

  /** The text a fragment match covers, or `""` when there is none (`match ? match[0] : ''`). */
  function FragmentText(s: string, m: Option<(nat, nat)>): (r: string)
    requires m.Some? ==> m.value.0 <= m.value.1 <= |s|
  {
    if m.None? then "" else s[m.value.0..m.value.1]
  }

  /** The first footer block of `s`: `<div class="footer">` up to the first `</div>` after it. */
  function FooterFragment(s: string): Option<(nat, nat)> {
    FragmentScan(s, FooterOpen, false, DivClose, 0)
  }

  /**
   * A footer block starts at the first footer tag, ends with the first
   * `</div>` after that tag, and is missing exactly when no footer tag is
   * followed by a `</div>`.
   */
  lemma FooterFragmentSpec(s: string)
    ensures FooterFragment(s).Some? ==>
              var (i, e) := FooterFragment(s).value;
              OccursAt(s, FooterOpen, i) && i + |FooterOpen| + 6 <= e <= |s| &&
              OccursAt(s, DivClose, e - 6) &&
              (forall q :: i + |FooterOpen| <= q < e - 6 ==> !OccursAt(s, DivClose, q)) &&
              (forall q: nat :: q < i ==> !OccursAt(s, FooterOpen, q))
    ensures FooterFragment(s).None? <==>
              forall q: nat :: OccursAt(s, FooterOpen, q) ==> IndexOf(s, DivClose, q + |FooterOpen|) == -1
  {
    FragmentScanFirst(s, FooterOpen, false, DivClose, 0);
    var i := IndexOf(s, FooterOpen, 0);
    if FooterFragment(s).None? && i != -1 {
      forall q: nat | OccursAt(s, FooterOpen, q) ensures IndexOf(s, DivClose, q + |FooterOpen|) == -1 {
        assert i <= q;
      }
    }
  }

  /** The first title of `s`: the first `<h1` through the next `>`, up to the first `</h1>` after it. */
  function TitleFragment(s: string): Option<(nat, nat)> {
    FragmentScan(s, TitleOpen, true, TitleClose, 0)
  }

  /**
   * A title starts at the first `<h1`, its opening tag runs to the first
   * `>` after that, and it ends with the first `</h1>` after that `>`; it is
   * missing exactly when the first `<h1` has no `>` after it or that `>` no
   * `</h1>`.
   */
  lemma TitleFragmentSpec(s: string)
    ensures TitleFragment(s).Some? ==>
              var (i, e) := TitleFragment(s).value;
              var g := IndexOf(s, ">", i + |TitleOpen|);
              OccursAt(s, TitleOpen, i) && (forall q: nat :: q < i ==> !OccursAt(s, TitleOpen, q)) &&
              g != -1 && g + 1 + |TitleClose| <= e <= |s| &&
              OccursAt(s, TitleClose, e - |TitleClose|) &&
              (forall q :: g + 1 <= q < e - |TitleClose| ==> !OccursAt(s, TitleClose, q))
    ensures TitleFragment(s).None? <==>
              var i := IndexOf(s, TitleOpen, 0);
              i == -1 || BodyStart(s, TitleOpen, true, i) == -1 ||
              IndexOf(s, TitleClose, BodyStart(s, TitleOpen, true, i)) == -1
  {
    FragmentScanFirst(s, TitleOpen, true, TitleClose, 0);
  }

  // ---------------------------------------------------------------------
  // The conversion
  // ---------------------------------------------------------------------

  /** The `src` of the image: the stored file when a file name is given, else `imageSrc`. */
  function ImageSrcAttr(imageSrc: string, fileName: string): string {
    if fileName != "" then ImagesFolder + fileName else imageSrc
  }

  /** The image element of a converted slide. */
  function ImageTag(src: string, alt: string): string {
    "<img src=\"" + src + "\" alt=\"" + alt + "\">"
  }

  /** Text from the opening tag up to the title. */
  const HeadGap := "\n        "
  /** Text between the title and the body. */
  const ContentOpen := "\n        <div class=\"slide-split-content\">\n            <div class=\"slide-content\">\n"
  /** Text between the body and the image element. */
  const ImageOpen := "\n            </div>\n            <div class=\"slide-image\">\n                "
  /** Text between the image element and the footer. */
  const ImageClose := "\n            </div>\n        </div>\n        "
  /** Text after the footer. */
  const SplitClose := "\n    </div>"

  /** The two-column slide that the conversion emits, in three parts. */
  function SplitTemplate(title: string, body: string, img: string, footer: string): string {
    SplitHead(title) + (ContentOpen + body + ImageOpen + img + ImageClose) + SplitTail(footer)
  }

  function SplitHead(title: string): string {
    SplitOpen + HeadGap + title
  }

  function SplitTail(footer: string): string {
    footer + SplitClose
  }

  /** The inner text with the footer, then the title, removed once each (first literal occurrence). */
  function BodyOf(inner: string, footer: string, title: string): string {
    var a := if footer != "" then ReplaceFirst(inner, footer, "") else inner;
    if title != "" then ReplaceFirst(a, title, "") else a
  }

  predicate StartsWith(s: string, p: string) {
    |p| <= |s| && s[..|p|] == p
  }

  predicate EndsWith(s: string, p: string) {
    |p| <= |s| && s[|s| - |p|..] == p
  }

  /** The title the conversion keeps, from the slide's inner text. */
  function TitleOf(inner: string): string {
    FragmentText(inner, TitleFragment(inner))
  }

  /** The footer the conversion keeps, from the slide's inner text. */
  function FooterOf(inner: string): string {
    FragmentText(inner, FooterFragment(inner))
  }

  /**
   * `convertToSplitLayout(slideContent, imageSrc, imageName, fileName)`;
   * a `fileName` of `""` stands for `null`, which the source treats alike.
   * Without a wrapper match the slide comes back unchanged; otherwise the
   * result opens with the split tag followed by the title, ends with the
   * footer and `</div>`, and is neither an exact slide marker nor a wrapper
   * match at its start.
   */
  function ConvertToSplitLayout(content: string, imageSrc: string, imageName: string, fileName: string): (r: string)
    ensures WrapperScan(content, 0).None? ==> r == content
    ensures WrapperScan(content, 0).Some? ==>
              var k := WrapperScan(content, 0).value;
              k <= |content| - 6 &&
              var inner := content[k..|content| - 6];
              StartsWith(r, SplitHead(TitleOf(inner))) &&
              EndsWith(r, SplitTail(FooterOf(inner))) && EndsWithClose(r) &&
              !OccursAt(r, SlideMarker, 0) && !OccursAt(r, WrapperOpen, 0)
  {
    WrapperScanFirst(content, 0);
    match WrapperScan(content, 0)
    case None => content
    case Some(k) =>
      var inner := content[k..|content| - 6];
      var title := TitleOf(inner);
      var footer := FooterOf(inner);
      TemplateEnds(title, Trim(BodyOf(inner, footer, title)), ImageTag(ImageSrcAttr(imageSrc, fileName), imageName), footer);
      SplitOf(inner, imageSrc, imageName, fileName)
  }

  /** The split slide built from the inner text of a matched wrapper. */
  function SplitOf(inner: string, imageSrc: string, imageName: string, fileName: string): string {
    var title := TitleOf(inner);
    var footer := FooterOf(inner);
    SplitTemplate(title, Trim(BodyOf(inner, footer, title)), ImageTag(ImageSrcAttr(imageSrc, fileName), imageName), footer)
  }

  /** The template starts with the split tag and the title, and ends with the footer and `</div>`. */
  lemma TemplateEnds(title: string, body: string, img: string, footer: string)
    ensures var r := SplitTemplate(title, body, img, footer);
            StartsWith(r, SplitHead(title)) && EndsWith(r, SplitTail(footer)) &&
            EndsWithClose(r) && !OccursAt(r, SlideMarker, 0) && !OccursAt(r, WrapperOpen, 0)
  {
    var r := SplitTemplate(title, body, img, footer);
    var head := SplitHead(title);
    var tail := SplitTail(footer);
    var mid := ContentOpen + body + ImageOpen + img + ImageClose;
    assert r[..|head|] == head;
    assert r[|r| - |tail|..] == tail;
    TailCloses(r, tail);
    assert head[..|SplitOpen|] == SplitOpen;
    assert r[..|SplitOpen|] == SplitOpen;
    SplitOpenNotMarker(r);
  }

  lemma TailCloses(r: string, tail: string)
    requires |SplitClose| <= |tail| <= |r| && r[|r| - |tail|..] == tail
    requires tail[|tail| - |SplitClose|..] == SplitClose
    ensures EndsWithClose(r)
  {
    assert r[|r| - 6..] == tail[|tail| - 6..] == SplitClose[5..] == DivClose;
  }

  /** Text that opens with the split tag holds no exact marker and no wrapper literal at its start. */
  lemma SplitOpenNotMarker(r: string)
    requires |SplitOpen| <= |r| && r[..|SplitOpen|] == SplitOpen
    ensures !OccursAt(r, SlideMarker, 0) && !OccursAt(r, WrapperOpen, 0)
  {
    assert r[17] == r[..|SplitOpen|][17] == ' ';
    assert r[0..19][17] == r[17] && r[0..18][17] == r[17];
  }

  /** `x` occurs somewhere in `s`. */
  predicate Contains(s: string, x: string) {
    exists i: nat :: i <= |s| && OccursAt(s, x, i)
  }

  /**
   * A conversion that matched holds the image element, whose `src` is the
   * images folder followed by the file name when one is given, and
   * `imageSrc` otherwise.
   */
  lemma ConvertedImage(content: string, imageSrc: string, imageName: string, fileName: string)
    requires WrapperScan(content, 0).Some?
    ensures var r := ConvertToSplitLayout(content, imageSrc, imageName, fileName);
            Contains(r, ImageTag(if fileName != "" then ImagesFolder + fileName else imageSrc, imageName))
  {
    var r := ConvertToSplitLayout(content, imageSrc, imageName, fileName);
    var k := WrapperScan(content, 0).value;
    var inner := content[k..|content| - 6];
    var title := TitleOf(inner);
    var footer := FooterOf(inner);
    var body := Trim(BodyOf(inner, footer, title));
    var src := if fileName != "" then ImagesFolder + fileName else imageSrc;
    assert ImageSrcAttr(imageSrc, fileName) == src;
    var img := ImageTag(src, imageName);
    assert r == SplitTemplate(title, body, img, footer);
    TemplateHoldsImage(title, body, img, footer);
  }

  lemma TemplateHoldsImage(title: string, body: string, img: string, footer: string)
    ensures Contains(SplitTemplate(title, body, img, footer), img)
  {
    var r := SplitTemplate(title, body, img, footer);
    var i := |SplitHead(title)| + |ContentOpen + body + ImageOpen|;
    assert OccursAt(r, img, i);
  }

  /** A conversion that matched opens with the split tag, whose 18th character is a space. */
  lemma ConvertedOpensSplit(content: string, imageSrc: string, imageName: string, fileName: string)
    requires WrapperScan(content, 0).Some?
    ensures var r := ConvertToSplitLayout(content, imageSrc, imageName, fileName);
            StartsWith(r, SplitOpen) && r[17] == ' '
  {
    var r := ConvertToSplitLayout(content, imageSrc, imageName, fileName);
    var k := WrapperScan(content, 0).value;
    HeadOpensSplit(r, TitleOf(content[k..|content| - 6]));
  }

  /** Text starting with the split head starts with the split tag, whose character 17 is a space. */
  lemma HeadOpensSplit(r: string, title: string)
    requires StartsWith(r, SplitHead(title))
    ensures StartsWith(r, SplitOpen) && r[17] == ' '
  {
    var head := SplitHead(title);
    assert r[..|SplitOpen|] == head[..|SplitOpen|] == SplitOpen;
    assert r[17] == SplitOpen[17];
  }

  /**
   * The content of a located slide, which starts with the exact marker and
   * ends with `</div>`, always matches the wrapper, and its inner text is
   * everything between the marker and the final `</div>`.
   */
  lemma LocatedContentMatches(content: string)
    requires |content| >= 25 && OccursAt(content, SlideMarker, 0) && EndsWithClose(content)
    ensures WrapperScan(content, 0) == Some(|SlideMarker|)
  {
    WrapperScanFirst(content, 0);
    OccursAtChars(content, SlideMarker, 0);
    assert OccursAt(content, WrapperOpen, 0) by {
      assert content[..|WrapperOpen|] == SlideMarker[..|WrapperOpen|];
    }
    assert IndexOf(content, WrapperOpen, 0) == 0;
    assert content[18..19] == ">";
    assert IndexOf(content, ">", |WrapperOpen|) == 18;
  }

  // ---------------------------------------------------------------------
  // The body of the converted slide

  /**
   * Removing the text `s[i..e]` once, when it starts with a literal `open`
   * that first occurs at `i`, cuts exactly `[i, e)` out: no earlier
   * occurrence of the text can start before the literal's first one.
   */
  lemma CutFirst(s: string, open: string, i: nat, e: nat)
    requires open != [] && i + |open| <= e <= |s| && OccursAt(s, open, i)
    requires forall q: nat :: q < i ==> !OccursAt(s, open, q)
    ensures ReplaceFirst(s, s[i..e], "") == s[..i] + s[e..]
  {
    var t := s[i..e];
    assert t[..|open|] == open;
    forall q: nat | q < i ensures !OccursAt(s, t, q) {
      assert !OccursAt(s, open, q);
      if q + |t| <= |s| {
        assert s[q..q + |t|][..|open|] == s[q..q + |open|];
      }
    }
    assert OccursAt(s, t, i);
    assert IndexOf(s, t, 0) == i;
  }

  /** The footer removal cuts the footer block's span `[i, e)` out of the inner text. */
  lemma FooterCut(inner: string)
    requires FooterFragment(inner).Some?
    ensures var (i, e) := FooterFragment(inner).value;
            i + |FooterOpen| <= e <= |inner| && FooterOf(inner) == inner[i..e] &&
            ReplaceFirst(inner, FooterOf(inner), "") == inner[..i] + inner[e..]
  {
    FooterFragmentSpec(inner);
    var (i, e) := FooterFragment(inner).value;
    CutFirst(inner, FooterOpen, i, e);
  }

  /** The title removal, on a text that is its own title's source, cuts the title's span out. */
  lemma TitleCut(inner: string)
    requires TitleFragment(inner).Some?
    ensures var (i, e) := TitleFragment(inner).value;
            i + |TitleOpen| <= e <= |inner| && TitleOf(inner) == inner[i..e] &&
            ReplaceFirst(inner, TitleOf(inner), "") == inner[..i] + inner[e..]
  {
    TitleFragmentSpec(inner);
    var (i, e) := TitleFragment(inner).value;
    CutFirst(inner, TitleOpen, i, e);
  }

  /**
   * A title before the footer: after the footer is cut out, the title is
   * still the first text of its kind, so the body is the inner text without
   * the title's span and without the footer's span.
   */
  lemma BodyTitleFirst(inner: string, i: nat, e: nat, ti: nat, te: nat)
    requires FooterFragment(inner) == Some((i, e)) && TitleFragment(inner) == Some((ti, te)) && te <= i
    ensures BodyOf(inner, FooterOf(inner), TitleOf(inner)) == inner[..ti] + inner[te..i] + inner[e..]
  {
    FooterCut(inner);
    TitleFragmentSpec(inner);
    CutBefore(inner, TitleOpen, i, e, ti, te);
  }

  /**
   * A title after the footer: the body is the inner text without the
   * footer's span and without the title's span, provided no `<h1` is formed
   * across the place the footer was cut from (such a `<h1` would be the first
   * occurrence the title removal finds).
   */
  lemma BodyFooterFirst(inner: string, i: nat, e: nat, ti: nat, te: nat)
    requires FooterFragment(inner) == Some((i, e)) && TitleFragment(inner) == Some((ti, te)) && e <= ti
    requires forall q: nat :: q < i < q + |TitleOpen| ==> !OccursAt(inner[..i] + inner[e..], TitleOpen, q)
    ensures BodyOf(inner, FooterOf(inner), TitleOf(inner)) == inner[..i] + inner[e..ti] + inner[te..]
  {
    FooterCut(inner);
    TitleFragmentSpec(inner);
    CutAfter(inner, TitleOpen, i, e, ti, te);
  }

  /** Removing a first occurrence of `open` that lies before a span cut out of the text. */
  lemma CutBefore(s: string, open: string, i: nat, e: nat, ti: nat, te: nat)
    requires open != [] && ti + |open| <= te <= i <= e <= |s|
    requires OccursAt(s, open, ti) && forall q: nat :: q < ti ==> !OccursAt(s, open, q)
    ensures ReplaceFirst(s[..i] + s[e..], s[ti..te], "") == s[..ti] + s[te..i] + s[e..]
  {
    var a := s[..i] + s[e..];
    KeptBefore(s, a, open, i, e, ti);
    JoinBefore(s, a, i, e, ti, te);
    CutFirst(a, open, ti, te);
  }

  /** The pieces of a text with `[i, e)` cut out, around a span `[ti, te)` before `i`. */
  lemma JoinBefore(s: string, a: string, i: nat, e: nat, ti: nat, te: nat)
    requires ti <= te <= i <= e <= |s| && a == s[..i] + s[e..]
    ensures a[ti..te] == s[ti..te] && a[..ti] + a[te..] == s[..ti] + s[te..i] + s[e..]
  {
    assert a[..ti] == s[..ti];
    assert a[te..] == s[te..i] + s[e..];
  }

  /** Cutting `[i, e)` out keeps the first occurrence of `open` when it ends before `i`. */
  lemma KeptBefore(s: string, a: string, open: string, i: nat, e: nat, ti: nat)
    requires ti + |open| <= i <= e <= |s| && a == s[..i] + s[e..]
    requires OccursAt(s, open, ti) && forall q: nat :: q < ti ==> !OccursAt(s, open, q)
    ensures OccursAt(a, open, ti) && forall q: nat :: q < ti ==> !OccursAt(a, open, q)
  {
    assert a[ti..ti + |open|] == s[ti..ti + |open|];
    forall q: nat | q < ti ensures !OccursAt(a, open, q) {
      assert !OccursAt(s, open, q);
      assert a[q..q + |open|] == s[q..q + |open|];
    }
  }

  /** Removing a first occurrence of `open` that lies after a span cut out of the text. */
  lemma CutAfter(s: string, open: string, i: nat, e: nat, ti: nat, te: nat)
    requires open != [] && i <= e <= ti && ti + |open| <= te <= |s|
    requires OccursAt(s, open, ti) && forall q: nat :: q < ti ==> !OccursAt(s, open, q)
    requires forall q: nat :: q < i < q + |open| ==> !OccursAt(s[..i] + s[e..], open, q)
    ensures ReplaceFirst(s[..i] + s[e..], s[ti..te], "") == s[..i] + s[e..ti] + s[te..]
  {
    var a := s[..i] + s[e..];
    var u, v := ti - (e - i), te - (e - i);
    KeptAfter(s, a, open, i, e, ti, u);
    JoinAfter(s, a, i, e, ti, te, u, v);
    CutFirst(a, open, u, v);
  }

  /** The pieces of a text with `[i, e)` cut out, around a span `[ti, te)` after `e`. */
  lemma JoinAfter(s: string, a: string, i: nat, e: nat, ti: nat, te: nat, u: nat, v: nat)
    requires i <= e <= ti <= te <= |s| && a == s[..i] + s[e..] && u + e == ti + i && v + e == te + i
    ensures u <= v <= |a| && a[u..v] == s[ti..te] && a[..u] + a[v..] == s[..i] + s[e..ti] + s[te..]
  {
    assert a[..u] == s[..i] + s[e..ti];
    assert a[v..] == s[te..];
  }

  /**
   * Cutting `[i, e)` out keeps the first occurrence of `open` when it starts
   * after `e`, provided no occurrence is formed across the cut.
   */
  lemma KeptAfter(s: string, a: string, open: string, i: nat, e: nat, ti: nat, u: nat)
    requires i <= e <= ti && ti + |open| <= |s| && a == s[..i] + s[e..] && u + e == ti + i
    requires OccursAt(s, open, ti) && forall q: nat :: q < ti ==> !OccursAt(s, open, q)
    requires forall q: nat :: q < i < q + |open| ==> !OccursAt(a, open, q)
    ensures OccursAt(a, open, u) && forall q: nat :: q < u ==> !OccursAt(a, open, q)
  {
    var d := e - i;
    assert a[u..u + |open|] == s[ti..ti + |open|];
    forall q: nat | q < u ensures !OccursAt(a, open, q) {
      if q + |open| <= i {
        assert !OccursAt(s, open, q);
        assert a[q..q + |open|] == s[q..q + |open|];
      } else if i <= q && q + |open| <= |a| {
        assert !OccursAt(s, open, q + d);
        assert a[q..q + |open|] == s[q + d..q + d + |open|];
      }
    }
  }

  /**
   * What the conversion keeps as the body, before trimming, in terms of the
   * spans of the footer block and the title: the inner text with each span
   * that was found cut out once.
   */
  lemma BodyMeaning(inner: string)
    ensures FooterFragment(inner).None? && TitleFragment(inner).None? ==>
              BodyOf(inner, FooterOf(inner), TitleOf(inner)) == inner
    ensures FooterFragment(inner).Some? && TitleFragment(inner).None? ==>
              var (i, e) := FooterFragment(inner).value;
              i <= e <= |inner| && BodyOf(inner, FooterOf(inner), TitleOf(inner)) == inner[..i] + inner[e..]
    ensures FooterFragment(inner).None? && TitleFragment(inner).Some? ==>
              var (ti, te) := TitleFragment(inner).value;
              ti <= te <= |inner| && BodyOf(inner, FooterOf(inner), TitleOf(inner)) == inner[..ti] + inner[te..]
  {
    if FooterFragment(inner).Some? {
      FooterCut(inner);
    }
    if TitleFragment(inner).Some? {
      TitleCut(inner);
    }
  }

  /** Between the title and the image the template holds the content opening, the body and the image opening. */
  lemma TemplateBody(title: string, body: string, img: string, footer: string)
    ensures var r := SplitTemplate(title, body, img, footer);
            var h := |SplitHead(title)| + |ContentOpen|;
            h + |body| + |ImageOpen| <= |r| && r[|SplitHead(title)|..h] == ContentOpen &&
            r[h..h + |body|] == body && r[h + |body|..h + |body| + |ImageOpen|] == ImageOpen
  {
    var r := SplitTemplate(title, body, img, footer);
    var x := |SplitHead(title)|;
    var h := x + |ContentOpen|;
    var mid := ContentOpen + body + ImageOpen + img + ImageClose;
    assert r[x..x + |mid|] == mid;
    assert mid[..|ContentOpen|] == ContentOpen;
    assert mid[|ContentOpen|..|ContentOpen| + |body|] == body;
    assert mid[|ContentOpen| + |body|..|ContentOpen| + |body| + |ImageOpen|] == ImageOpen;
  }

  /**
   * The split slide built from an inner text holds, right after the title
   * and the content opening, the inner text with the footer and then the
   * title removed once each and trimmed, followed by the image column's
   * opening.
   */
  lemma SplitBody(inner: string, imageSrc: string, imageName: string, fileName: string)
    ensures var r := SplitOf(inner, imageSrc, imageName, fileName);
            var title := TitleOf(inner);
            var body := Trim(BodyOf(inner, FooterOf(inner), title));
            var h := |SplitHead(title)| + |ContentOpen|;
            h + |body| + |ImageOpen| <= |r| && r[|SplitHead(title)|..h] == ContentOpen &&
            r[h..h + |body|] == body && r[h + |body|..h + |body| + |ImageOpen|] == ImageOpen
  {
    var title := TitleOf(inner);
    var footer := FooterOf(inner);
    TemplateBody(title, Trim(BodyOf(inner, footer, title)), ImageTag(ImageSrcAttr(imageSrc, fileName), imageName), footer);
  }

  /** A conversion that matched is the split slide built from the wrapper's inner text. */
  lemma ConvertedBody(content: string, imageSrc: string, imageName: string, fileName: string, k: nat)
    requires WrapperScan(content, 0) == Some(k)
    ensures k <= |content| - 6 &&
            ConvertToSplitLayout(content, imageSrc, imageName, fileName) ==
              SplitOf(content[k..|content| - 6], imageSrc, imageName, fileName)
  {
    WrapperBound(content, k);
  }

  /** A wrapper match leaves room for the closing `</div>`. */
  lemma WrapperBound(content: string, k: nat)
    requires WrapperScan(content, 0) == Some(k)
    ensures k <= |content| - 6
  {
    WrapperScanFirst(content, 0);
  }
}
