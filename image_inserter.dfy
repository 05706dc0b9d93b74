/**
 * The editing side of `ImageInserter`: the textarea's text and selection and
 * the image counter are the fields of a class, and the operations that
 * rewrite them are its methods. The textarea's `value` setter follows the
 * HTML standard: giving it a different text moves the caret to the end.
 */
module Editor {
  import opened Text
  import opened SpanFinder
  import opened SlideLocator
  import opened SplitLayout

  /** An ASCII capital letter, the only case `toLowerCase` is modelled for. */
  predicate IsUpper(c: char) {
    'A' <= c <= 'Z'
  }

  /** A capital becomes its small letter, 32 code units on; any other character stays. */
  function LowerChar(c: char): (r: char)
    ensures !IsUpper(r)
    ensures IsUpper(c) ==> r as int == c as int + 32
    ensures !IsUpper(c) ==> r == c
  {
    if IsUpper(c) then (c as int + 32) as char else c
  }

  /**
   * `toLowerCase` on ASCII letters: each capital becomes its small letter,
   * every other character stays, and no capital is left.
   */
  function ToLower(s: string): (r: string)
    ensures |r| == |s|
    ensures forall i :: 0 <= i < |r| ==> !IsUpper(r[i]) && (!IsUpper(s[i]) ==> r[i] == s[i])
    ensures forall i :: 0 <= i < |r| && IsUpper(s[i]) ==> r[i] as int == s[i] as int + 32
  {
    if s == [] then [] else ToLower(s[..|s| - 1]) + [LowerChar(s[|s| - 1])]
  }

  /**
   * `name.split('.').pop()`: the text after the last `.`, or the whole name
   * when it has none. It holds no `.`, ends the name, and is either all of
   * it or preceded by a `.`.
   */
  function LastSegment(s: string): (r: string)
    ensures '.' !in r && |r| <= |s| && r == s[|s| - |r|..]
    ensures |r| == |s| || s[|s| - |r| - 1] == '.'
  {
    if s == [] then []
    else if s[|s| - 1] == '.' then []
    else
      var r := LastSegment(s[..|s| - 1]);
      assert s[..|s| - 1][|s| - 1 - |r|..] == s[|s| - 1 - |r|..|s| - 1];
      r + [s[|s| - 1]]
  }

  /** The file extension `generateImageFileName` keeps, lower-cased. */
  function Extension(originalName: string): string {
    ToLower(LastSegment(originalName))
  }

  /** The part of a generated name fixed by the timestamp. */
  function NamePrefix(timestamp: nat): string {
    "image_" + Decimal(timestamp) + "_"
  }

  /** The name `generateImageFileName` builds from a timestamp and a counter value. */
  function ImageFileName(originalName: string, timestamp: nat, counter: nat): string {
    NamePrefix(timestamp) + (Decimal(counter) + ("." + Extension(originalName)))
  }

  /** The length of the run of digits `s` starts with. */
  function DigitRun(s: string): (n: nat)
    ensures n <= |s| && AllDigits(s[..n])
    ensures n < |s| ==> !IsDigit(s[n])
  {
    if s == [] || !IsDigit(s[0]) then 0
    else
      var n := 1 + DigitRun(s[1..]);
      assert forall i :: 1 <= i < n ==> s[..n][i] == s[1..][..n - 1][i - 1];
      n
  }

  /** Digits followed by a non-digit: the leading run is exactly the digits. */
  lemma {:induction false} DigitRunOfDigits(d: string, x: string)
    requires AllDigits(d) && x != [] && !IsDigit(x[0])
    ensures DigitRun(d + x) == |d|
  {
    if d != [] {
      assert (d + x)[1..] == d[1..] + x;
      DigitRunOfDigits(d[1..], x);
    }
  }

  /** Two digit strings each followed by a non-digit can only be equal as prefixes if they are equal. */
  lemma DigitsThenStop(d1: string, x1: string, d2: string, x2: string)
    requires AllDigits(d1) && AllDigits(d2)
    requires x1 != [] && x2 != [] && !IsDigit(x1[0]) && !IsDigit(x2[0])
    requires d1 + x1 == d2 + x2
    ensures d1 == d2
  {
    DigitRunOfDigits(d1, x1);
    DigitRunOfDigits(d2, x2);
    assert d1 == (d1 + x1)[..|d1|];
    assert d2 == (d2 + x2)[..|d2|];
  }

  /**
   * Names generated within the same millisecond still differ when the
   * counter differs, whatever the original names were.
   */
  lemma FileNamesDistinct(name1: string, name2: string, timestamp: nat, c1: nat, c2: nat)
    requires c1 != c2
    ensures ImageFileName(name1, timestamp, c1) != ImageFileName(name2, timestamp, c2)
  {
    var p := NamePrefix(timestamp);
    var x1 := "." + Extension(name1);
    var x2 := "." + Extension(name2);
    if ImageFileName(name1, timestamp, c1) == ImageFileName(name2, timestamp, c2) {
      assert Decimal(c1) + x1 == (p + (Decimal(c1) + x1))[|p|..];
      assert Decimal(c2) + x2 == (p + (Decimal(c2) + x2))[|p|..];
      DigitsThenStop(Decimal(c1), x1, Decimal(c2), x2);
    }
  }

  /**
   * The conversion of a located slide always matches its wrapper, so it
   * works on the text between the slide's marker and its final `</div>`.
   */
  lemma ConvertLocated(b: string, sl: Slide)
    requires WellFormed(b, sl)
    ensures WrapperScan(sl.content, 0) == Some(|SlideMarker|)
  {
    SlideShape(b, sl);
    assert OccursAt(sl.content, SlideMarker, 0);
    assert OccursAt(sl.content, DivClose, |sl.content| - 6);
    LocatedContentMatches(sl.content);
  }

  /** The buffer with the located slide replaced by `x`. */
  function Spliced(b: string, sl: Slide, x: string): string
    requires sl.start <= sl.end <= |b|
  {
    b[..sl.start] + x + b[sl.end..]
  }

  /**
   * After the split conversion, the converted slide no longer starts with an
   * exact marker, so it is not located again and not counted as a slide.
   */
  lemma ConvertedSlideUnmarked(b: string, sl: Slide, imageSrc: string, imageName: string, fileName: string)
    requires WellFormed(b, sl)
    ensures !MarkerAt(Spliced(b, sl, ConvertToSplitLayout(sl.content, imageSrc, imageName, fileName)), sl.start)
  {
    ConvertLocated(b, sl);
    ConvertedOpensSplit(sl.content, imageSrc, imageName, fileName);
    SplicedUnmarked(b, sl, ConvertToSplitLayout(sl.content, imageSrc, imageName, fileName));
  }

  /** A replacement whose character 17 is a space does not start an exact marker. */
  lemma SplicedUnmarked(b: string, sl: Slide, r: string)
    requires sl.start <= sl.end <= |b| && |r| > 17 && r[17] == ' '
    ensures !MarkerAt(Spliced(b, sl, r), sl.start)
  {
    var nb := Spliced(b, sl, r);
    assert nb[sl.start + 17] == r[17];
    if sl.start + |SlideMarker| <= |nb| {
      assert nb[sl.start..sl.start + |SlideMarker|][17] == nb[sl.start + 17];
    }
  }

  /** The fixed text of the fallback snippet around its image tag and its caption. */
  const FallbackOpen := "\n        <div style=\"text-align: center; margin: 30px 0;\">\n            "
  const FallbackStyle :=
    " \n                 style=\"max-width: 600px; max-height: 400px; width: auto; height: auto; \n" +
    "                        border-radius: 8px; box-shadow: 0 4px 15px rgba(0,0,0,0.2);\">\n" +
    "            <p style=\"font-size: 16px; color: #7f8c8d; margin-top: 10px; font-style: italic;\">"
  const FallbackClose := "</p>\n        </div>"

  /** The unfinished `<img` tag of the fallback snippet, whose style attribute follows. */
  function FallbackImageTag(imageSrc: string, imageName: string, fileName: string): string {
    "<img src=\"" + ImageSrcAttr(imageSrc, fileName) + "\" alt=\"" + imageName + "\""
  }

  /** The fallback insertion when the cursor is in no slide: a centred image with a caption. */
  function FallbackSnippet(imageSrc: string, imageName: string, fileName: string): string {
    FallbackOpen + FallbackImageTag(imageSrc, imageName, fileName) + FallbackStyle + imageName + FallbackClose
  }

  /** A located slide is one of the text's terminated slides. */
  lemma LocatedWellFormed(b: string, cursor: int)
    requires Locate(b, cursor).Some?
    ensures WellFormed(b, Locate(b, cursor).value)
  {
    LocateSome(b, cursor);
  }

  /** The text with `x` inserted at offset `at`. */
  function InsertedAt(b: string, at: nat, x: string): string
    requires at <= |b|
  {
    b[..at] + x + b[at..]
  }

  /**
   * The text `insertImageWithSplitLayout` leaves in the textarea: the slide
   * holding the caret replaced by its split conversion, or, when the caret
   * is in no slide, the fallback snippet inserted at the caret.
   */
  function WithImage(b: string, cursor: nat, imageSrc: string, imageName: string, fileName: string): string
    requires cursor <= |b|
  {
    match Locate(b, cursor)
    case Some(sl) =>
      LocateSome(b, cursor);
      Spliced(b, sl, ConvertToSplitLayout(sl.content, imageSrc, imageName, fileName))
    case None =>
      InsertedAt(b, cursor, FallbackSnippet(imageSrc, imageName, fileName))
  }

  /**
   * Where the caret ends up: replacing a slide always changes the text, so
   * the `value` setter moves the caret to the end; the fallback leaves it
   * just after the snippet.
   */
  function CaretWithImage(b: string, cursor: nat, imageSrc: string, imageName: string, fileName: string): nat
    requires cursor <= |b|
  {
    match Locate(b, cursor)
    case Some(_) => |WithImage(b, cursor, imageSrc, imageName, fileName)|
    case None => cursor + |FallbackSnippet(imageSrc, imageName, fileName)|
  }

  /** When the caret is in no slide, the text gets the fallback snippet at the caret, which ends up after it. */
  lemma WithImageFallback(b: string, cursor: nat, imageSrc: string, imageName: string, fileName: string)
    requires cursor <= |b| && Locate(b, cursor).None?
    ensures WithImage(b, cursor, imageSrc, imageName, fileName) == InsertedAt(b, cursor, FallbackSnippet(imageSrc, imageName, fileName))
    ensures CaretWithImage(b, cursor, imageSrc, imageName, fileName) == cursor + |FallbackSnippet(imageSrc, imageName, fileName)|
  {
  }

  /**
   * When the caret is in a slide, only that slide's span changes: the text
   * before its marker and after its closing `</div>` is kept, and the span
   * holds the slide's split conversion.
   */
  lemma WithImageInPlace(b: string, cursor: nat, imageSrc: string, imageName: string, fileName: string)
    requires cursor <= |b| && Locate(b, cursor).Some?
    ensures var sl := Locate(b, cursor).value;
            var r := WithImage(b, cursor, imageSrc, imageName, fileName);
            var x := ConvertToSplitLayout(sl.content, imageSrc, imageName, fileName);
            sl.start <= cursor <= sl.end <= |b| && |r| == |b| - (sl.end - sl.start) + |x| &&
            r[..sl.start] == b[..sl.start] && r[sl.start..sl.start + |x|] == x &&
            r[sl.start + |x|..] == b[sl.end..]
  {
    var sl := Locate(b, cursor).value;
    LocateSome(b, cursor);
    SplicedInPlace(b, sl, ConvertToSplitLayout(sl.content, imageSrc, imageName, fileName),
                   WithImage(b, cursor, imageSrc, imageName, fileName));
  }

  lemma SplicedInPlace(b: string, sl: Slide, x: string, r: string)
    requires sl.start <= sl.end <= |b| && r == Spliced(b, sl, x)
    ensures |r| == |b| - (sl.end - sl.start) + |x|
    ensures r[..sl.start] == b[..sl.start] && r[sl.start..sl.start + |x|] == x && r[sl.start + |x|..] == b[sl.end..]
  {
  }

  /** Replacing a located slide by its split conversion always changes the text. */
  lemma ConvertedChanges(b: string, sl: Slide, imageSrc: string, imageName: string, fileName: string)
    requires WellFormed(b, sl)
    ensures Spliced(b, sl, ConvertToSplitLayout(sl.content, imageSrc, imageName, fileName)) != b
  {
    ConvertedSlideUnmarked(b, sl, imageSrc, imageName, fileName);
  }

  class ImageInserter {
    /** The textarea's text. */
    var value: string
    /** The textarea's selection; the caret when both are equal. */
    var selectionStart: nat
    var selectionEnd: nat
    /** The next number `generateImageFileName` hands out. */
    var imageCounter: nat

    ghost predicate Valid()
      reads this
    {
      selectionStart <= selectionEnd <= |value|
    }

    /** An inserter over a textarea holding `text`, with the caret at `caret` and the counter at 1. */
    constructor(text: string, caret: nat)
      requires caret <= |text|
      ensures Valid()
      ensures value == text && selectionStart == caret && selectionEnd == caret && imageCounter == 1
    {
      value := text;
      selectionStart := caret;
      selectionEnd := caret;
      imageCounter := 1;
    }

    /** The textarea's `value` setter: a different text moves the caret to its end. */
    method SetValue(v: string)
      modifies this`value, this`selectionStart, this`selectionEnd
      requires Valid()
      ensures Valid() && value == v
      ensures v != old(value) ==> selectionStart == |v| && selectionEnd == |v|
      ensures v == old(value) ==> selectionStart == old(selectionStart) && selectionEnd == old(selectionEnd)
    {
      if v != value {
        value := v;
        selectionStart := |v|;
        selectionEnd := |v|;
      }
    }

    /**
     * `generateImageFileName(originalName)` with the clock reading passed in:
     * the name carries the counter's current value, and the counter moves on
     * by exactly one.
     */
    method GenerateImageFileName(originalName: string, timestamp: nat) returns (name: string)
      modifies this`imageCounter
      ensures name == ImageFileName(originalName, timestamp, old(imageCounter))
      ensures imageCounter == old(imageCounter) + 1
    {
      var extension := ToLower(LastSegment(originalName));
      var counter := imageCounter;
      imageCounter := imageCounter + 1;
      name := "image_" + Decimal(timestamp) + "_" + (Decimal(counter) + ("." + extension));
    }

    /**
     * `insertToEditor(htmlContent)`: the text is inserted at the selection
     * start, everything before and after it is kept, and the caret ends up
     * just after the inserted text.
     */
    method InsertToEditor(html: string)
      modifies this`value, this`selectionStart, this`selectionEnd
      requires Valid()
      ensures Valid()
      ensures value == InsertedAt(old(value), old(selectionStart), html)
      ensures selectionStart == old(selectionStart) + |html| && selectionEnd == old(selectionStart) + |html|
    {
      var cursorPos := selectionStart;
      var textBefore := value[..cursorPos];
      var textAfter := value[cursorPos..];
      SetValue(textBefore + html + textAfter);
      var newCursorPos := cursorPos + |html|;
      selectionStart := newCursorPos;
      selectionEnd := newCursorPos;
    }

    /** The slide holding the caret replaced by its split conversion; the caret moves to the end. */
    method ReplaceSlide(imageSrc: string, imageName: string, fileName: string)
      modifies this`value, this`selectionStart, this`selectionEnd
      requires Valid() && Locate(value, selectionStart).Some?
      ensures Valid()
      ensures value == WithImage(old(value), old(selectionStart), imageSrc, imageName, fileName)
      ensures selectionStart == selectionEnd == CaretWithImage(old(value), old(selectionStart), imageSrc, imageName, fileName)
    {
      var htmlContent := value;
      var sl := Locate(htmlContent, selectionStart).value;
      LocatedWellFormed(htmlContent, selectionStart);
      var splitSlide := ConvertToSplitLayout(sl.content, imageSrc, imageName, fileName);
      ConvertedChanges(htmlContent, sl, imageSrc, imageName, fileName);
      SetValue(htmlContent[..sl.start] + splitSlide + htmlContent[sl.end..]);
    }

    /** The fallback snippet inserted at the caret, which ends up just after it. */
    method InsertFallback(imageSrc: string, imageName: string, fileName: string)
      modifies this`value, this`selectionStart, this`selectionEnd
      requires Valid()
      ensures Valid()
      ensures value == InsertedAt(old(value), old(selectionStart), FallbackSnippet(imageSrc, imageName, fileName))
      ensures selectionStart == selectionEnd == old(selectionStart) + |FallbackSnippet(imageSrc, imageName, fileName)|
    {
      InsertToEditor(FallbackSnippet(imageSrc, imageName, fileName));
    }

    /**
     * `insertImageWithSplitLayout(imageSrc, imageName, fileName)`: when the
     * caret is in a slide, that slide is replaced by its split conversion and
     * the rest of the text is kept; otherwise the fallback snippet is
     * inserted at the caret.
     */
    method InsertImageWithSplitLayout(imageSrc: string, imageName: string, fileName: string)
      modifies this`value, this`selectionStart, this`selectionEnd
      requires Valid()
      ensures Valid()
      ensures value == WithImage(old(value), old(selectionStart), imageSrc, imageName, fileName)
      ensures selectionStart == selectionEnd == CaretWithImage(old(value), old(selectionStart), imageSrc, imageName, fileName)
    {
      var cursorPos := selectionStart;
      var htmlContent := value;
      var currentSlide := FindCurrentSlide(htmlContent, cursorPos);
      if currentSlide.Some? {
        ReplaceSlide(imageSrc, imageName, fileName);
      } else {
        WithImageFallback(htmlContent, cursorPos, imageSrc, imageName, fileName);
        InsertFallback(imageSrc, imageName, fileName);
      }
    }
  }
}
