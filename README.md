# Slide editor: text-level slide parsing and rewriting

The slide editor keeps a whole presentation as one flat HTML string in a
textarea. It has no DOM and no HTML parser: the code that finds, converts,
inserts and renumbers slides works with literal searches, regular
expressions and substring splices. This model captures that code as Dafny
over `string` (`seq<char>`), with offsets that are indices into the text.

- **Slide end** (`SpanFinder`). `findSlideEnd` starts past the 19-character
  marker `<div class="slide">` at depth 1. It compares the next `<div`
  with the next `</div>` and returns the offset just after the `</div>`
  that brings the depth to 0, or -1. `Depth` and `MatchingClose` give a
  reference definition. The loop is proved to compute it.
- **Current slide** (`SlideLocator`). `findCurrentSlide` collects every exact
  marker and drops unterminated slides. It answers with the first slide
  whose `[start, end]` holds the cursor, or `null` (here `None`).
- **Split layout** (`SplitLayout`). `convertToSplitLayout` uses three
  regular expressions: the wrapper, the first footer block and the first
  `<h1…>…</h1>`. Each is a leftmost-match scan function whose meaning is
  proved. The result is the fixed `<div class="slide slide-split">`
  template.
- **Editor** (`Editor`). The class `ImageInserter` has the textarea's
  `value` and selection and the `imageCounter` field. Its methods are
  `generateImageFileName`, `insertToEditor` and
  `insertImageWithSplitLayout`: replace the slide holding the caret, or
  insert the fallback snippet. Setting `value` to a different text moves
  the caret to the end, as a textarea does.
- **Footer matches** (`FooterMatch`). This is the global regex
  `<div class="footer">\s*([^<]*?)\s*<\/div>` as used by
  `String.prototype.replace`. A match starts at an opening tag exactly when
  the first `<` after the tag starts a `</div>`. The captured group is the
  text in between, trimmed. The search resumes after each match.
- **Page renumbering** (`PageNumbers`). `updatePageNumbers` counts the exact
  markers to get N. Each footer match gets ordinals k = 1, 2, … in document
  order. Its text is rewritten in one of three ways:
  - a placeholder becomes `<date> - スライド k/N`;
  - otherwise the first `\d+/\d+` in the trimmed text is replaced by `k/N`;
  - otherwise ` - スライド k/N` is appended after the first `\d{4}年\d+月`.
- **Insertion point** (`InsertionPoint`). `findSlideInsertPosition` returns
  one of these:
  - the end of the first terminated slide holding the cursor;
  - else the end of the last marker's slide, if that slide is terminated;
  - else the text's length.

  It carries its own copy of the depth loop, which is proved to agree with
  `findSlideEnd`.

`Text` holds the JavaScript string primitives the code relies on:
`indexOf`, `includes`, `trim`, `replace` with a string pattern, and
`${n}` for naturals.

## Model

| member | source | states |
|---|---|---|
| SpanFinder.SlideEnd | js/image-inserter.js:354-377 | the slide end is -1 or an offset r with start + 25 <= r <= length and `</div>` ending at r |
| SpanFinder.MatchingClose | js/image-inserter.js:358-373 | the matching close is -1 or the end of a `</div>` after which the running depth is 0 |
| SpanFinder.MatchingCloseIsFirst | js/image-inserter.js:358-376 | -1 exactly when no `</div>` ahead brings the depth to 0; otherwise no earlier `</div>` does |
| SpanFinder.DepthPositiveInsideSlide | js/image-inserter.js:355-373 | at a found end the depth is 0, and at every earlier offset inside the slide it is at least 1 |
| SpanFinder.SlideEndMinusOne | js/image-inserter.js:362-376 | findSlideEnd gives -1 exactly when no `</div>` after the marker brings the depth to 0 |
| SpanFinder.ScanStep | js/image-inserter.js:359-373 | one loop step (next `<div` before next `</div>`: depth + 1; else depth - 1, returning at 0) keeps the loop invariant, and a missing `</div>` means the answer is -1 |
| SpanFinder.OpenFirst | js/image-inserter.js:364-366 | a `<div` before the next `</div>` raises the depth by one and moves past it, keeping the loop invariant |
| SpanFinder.CloseFirst | js/image-inserter.js:367-372 | a `</div>` first lowers the depth: from depth 1 its end is the slide end, otherwise the invariant holds past it with one less |
| SpanFinder.CloseMissing | js/image-inserter.js:362 | with no `</div>` left the slide has no end (-1) |
| SpanFinder.FindSlideEnd | js/image-inserter.js:354-377 | the loop returns exactly the reference slide end |
| SlideLocator.MarkersApart | js/image-inserter.js:327 | two exact markers never overlap, so the global search misses none |
| SlideLocator.MarkersFromSpec | js/image-inserter.js:327-342 | the markers from p are exactly the occurrences of `<div class="slide">` at or after p, in increasing order |
| SlideLocator.MarkersNext | js/image-inserter.js:332-333 | one `exec` step: the next marker is the next `indexOf` hit, and the search resumes after it |
| SlideLocator.FirstEnclosing | js/image-inserter.js:345-351 | the answer encloses the cursor and lies at or before every marker whose terminated slide encloses it |
| SlideLocator.FirstHoldingOfMarkers | js/image-inserter.js:332-351 | the first collected slide holding the cursor is the slide of the first enclosing marker |
| SlideLocator.LocateNone | js/image-inserter.js:335-351 | the answer is null exactly when no terminated slide encloses the cursor |
| SlideLocator.LocateSome | js/image-inserter.js:335-348 | an answer is well formed, holds the cursor, and no earlier marker's slide encloses it |
| SlideLocator.SlideShape | js/image-inserter.js:336-340 | a collected slide's content starts with the marker, ends with `</div>` and is at least 25 characters long |
| SlideLocator.NoMarkerNoSlide | js/image-inserter.js:327-351 | text without an exact marker yields null for every cursor |
| SlideLocator.CollectTake | js/image-inserter.js:334-341 | a terminated slide is pushed with content equal to the text between its start and end |
| SlideLocator.CollectSkip | js/image-inserter.js:334-335 | an unterminated slide is skipped and the search moves past its marker |
| SlideLocator.CollectDone | js/image-inserter.js:332 | when no marker is left, the array holds every terminated slide |
| SlideLocator.FindCurrentSlide | js/image-inserter.js:326-352 | the method's answer is exactly the first collected slide holding the cursor |
| SplitLayout.WrapperAttempt | js/image-inserter.js:381 | a wrapper match needs the literal at the start, then a `>`, and `</div>` at the very end; the group starts after that `>` |
| SplitLayout.WrapperAttemptMeaning | js/image-inserter.js:381 | the wrapper matches at i exactly when its literal is at i, the text ends with `</div>` and some `>` lies between the literal and that `</div>`; the group starts after the first such `>` |
| SplitLayout.WrapperFailsOnward | js/image-inserter.js:381 | once an occurrence fails, every later one fails, because `[^>]*>` and the final `</div>` do not depend on the start |
| SplitLayout.WrapperScanFirst | js/image-inserter.js:381 | the wrapper regex matches at the first occurrence of its literal or not at all |
| SplitLayout.FragmentAttempt | js/image-inserter.js:387-391 | a fragment match runs from its opening text to the first closing text after the body start |
| SplitLayout.FragmentScan | js/image-inserter.js:387-391 | the leftmost match from p is a successful attempt at or after p |
| SplitLayout.FragmentFailsOnward | js/image-inserter.js:387-391 | a failed attempt at an occurrence means no later occurrence succeeds |
| SplitLayout.FragmentScanFirst | js/image-inserter.js:387-391 | the lazy fragment regexes match at the first occurrence of their opening text or not at all |
| SplitLayout.FooterFragmentSpec | js/image-inserter.js:387-388 | the footer runs from the first footer tag to the first `</div>` after it, and is missing exactly when no footer tag is followed by a `</div>` |
| SplitLayout.TitleFragmentSpec | js/image-inserter.js:391-392 | the title runs from the first `<h1`, past the next `>`, to the first `</h1>` after that, and is missing exactly when there is no `<h1`, no `>` after the first one, or no `</h1>` after that `>` |
| SplitLayout.ConvertToSplitLayout | js/image-inserter.js:379-421 | without a wrapper match the content is returned unchanged; otherwise the result opens with the split tag and the extracted title, ends with the extracted footer and `</div>`, and is not a slide marker (the body in between: ConvertedBody, SplitBody, BodyMeaning) |
| SplitLayout.ConvertedBody | js/image-inserter.js:381-420 | a conversion that matched is the split slide built from the wrapper's inner text, which stops 6 characters before the end of the content |
| SplitLayout.WrapperBound | js/image-inserter.js:381 | a wrapper match leaves room for the final `</div>` |
| SplitLayout.SplitBody | js/image-inserter.js:395-420 | right after the title and the content opening, the split slide holds the trimmed body followed by the image column's opening |
| SplitLayout.TemplateBody | js/image-inserter.js:409-420 | after the title the template holds the content opening, the body and the image column's opening, in that order |
| SplitLayout.BodyMeaning | js/image-inserter.js:395-401 | with neither a footer nor a title found the body is the inner text; with only one found it is the inner text with that match's span cut out |
| SplitLayout.BodyTitleFirst | js/image-inserter.js:387-401 | when the title ends before the footer starts, the body is the inner text with the title's span and the footer's span cut out |
| SplitLayout.BodyFooterFirst | js/image-inserter.js:387-401 | when the title starts after the footer ends and no `<h1` is formed across the footer's cut, the body is the inner text with both spans cut out |
| SplitLayout.FooterCut | js/image-inserter.js:387-398 | `replace` of the extracted footer cuts exactly the footer match's span out of the inner text |
| SplitLayout.TitleCut | js/image-inserter.js:391-401 | `replace` of the extracted title cuts exactly the title match's span out of a text in which it was found |
| SplitLayout.CutFirst | js/image-inserter.js:397-400 | `replace` with a string that begins with a literal whose first occurrence is at i removes exactly the span from i to the string's end |
| SplitLayout.ConvertedImage | js/image-inserter.js:404-416 | a converted slide holds the image element, whose src is `images/` + fileName when a file name is given and imageSrc otherwise |
| SplitLayout.TemplateHoldsImage | js/image-inserter.js:409-420 | the template holds the image element it is given |
| SplitLayout.TemplateEnds | js/image-inserter.js:409-420 | the template starts with the split tag and the title, ends with the footer and `</div>`, and does not start with the exact marker or the wrapper literal |
| SplitLayout.TailCloses | js/image-inserter.js:419-420 | the template's tail makes the result end with `</div>` |
| SplitLayout.SplitOpenNotMarker | js/image-inserter.js:409 | text opening with `<div class="slide slide-split">` starts with neither the exact marker nor the wrapper literal |
| SplitLayout.ConvertedOpensSplit | js/image-inserter.js:409 | a converted slide opens with the split tag, whose character 17 is a space where the exact marker has `"` |
| SplitLayout.LocatedContentMatches | js/image-inserter.js:381 | content starting with the exact marker and ending with `</div>` matches the wrapper, with the group right after the marker |
| Editor.ToLower | js/image-inserter.js:26 | the result has the same length, no ASCII capital, and every other character unchanged |
| Editor.LastSegment | js/image-inserter.js:26 | `split('.').pop()` is a `.`-free suffix of the name that is the whole name or follows a `.` |
| Editor.FileNamesDistinct | js/image-inserter.js:25-30 | names generated with the same timestamp but different counter values differ, whatever the original names |
| Editor.ConvertLocated | js/image-inserter.js:294-298 | a located slide always matches the wrapper, with the group just after its marker |
| Editor.ConvertedSlideUnmarked | js/image-inserter.js:298-305 | after the replacement no exact marker starts where the slide was, so the converted slide is no longer located or counted |
| Editor.LocatedWellFormed | js/image-inserter.js:294-298 | the located slide is one of the text's terminated slides |
| Editor.WithImageFallback | js/image-inserter.js:310-322 | with the caret in no slide, the snippet is inserted at the caret and the caret ends up after it |
| Editor.WithImageInPlace | js/image-inserter.js:296-305 | with the caret in a slide, the text before and after that slide is kept and the span holds its split conversion |
| Editor.SplicedInPlace | js/image-inserter.js:301-303 | a splice keeps the text before start and from end on, with the replacement in between |
| Editor.ConvertedChanges | js/image-inserter.js:301-305 | replacing a located slide always changes the text |
| Editor.ImageInserter.constructor | js/image-inserter.js:6-7 | a fresh inserter has its counter at 1 |
| Editor.ImageInserter.SetValue | js/image-inserter.js:305 | assigning a different text moves the caret to its end; assigning the same text keeps the selection |
| Editor.ImageInserter.GenerateImageFileName | js/image-inserter.js:25-30 | the name is `image_<timestamp>_<counter>.<extension>` with the old counter value, and the counter goes up by exactly 1 |
| Editor.ImageInserter.InsertToEditor | js/image-inserter.js:423-432 | the new text is before + inserted + after at the caret, and the caret moves to old caret + inserted length |
| Editor.ImageInserter.ReplaceSlide | js/image-inserter.js:296-305 | the slide holding the caret is replaced by its conversion, and the caret moves to the end of the text |
| Editor.ImageInserter.InsertFallback | js/image-inserter.js:310-322 | the fallback snippet, with src `images/`+fileName or imageSrc, is inserted at the caret |
| Editor.ImageInserter.InsertImageWithSplitLayout | js/image-inserter.js:289-324 | the text and caret after the call are those of the replace branch or the fallback branch, chosen by whether a slide holds the caret |
| Text.IndexOf | js/image-inserter.js:359-360 | `indexOf` returns -1 when the pattern does not occur from `from` on, else its first occurrence at or after `from` |
| Text.TrimShape | js/slide-templates.js:351 | `trim` yields a contiguous middle part with only whitespace cut from both ends, neither end being whitespace |
| Text.TrimPadded | js/slide-templates.js:322 | whitespace on both sides of an unpadded text trims back to that text |
| Text.ReplaceFirst | js/image-inserter.js:397-400 | `replace` with a string pattern changes only the first occurrence, or nothing when it does not occur |
| Text.Decimal | js/slide-templates.js:338 | `${n}` is a nonempty digit string without a leading zero whose value is n |
| FooterMatch.FirstTag | js/slide-templates.js:322 | the first `<` at or after j, or -1 when there is none |
| FooterMatch.AttemptMeaning | js/slide-templates.js:322 | the footer regex matches at i exactly when the tag is at i and the first `<` after it begins `</div>` |
| FooterMatch.ElementScan | js/slide-templates.js:322 | a found match lies at or after the resume point and inside the text |
| FooterMatch.ScanMeaning | js/slide-templates.js:322 | the scan finds the leftmost match at or after the resume point, or there is none |
| FooterMatch.ResumeInRest | js/slide-templates.js:337 | resuming the global search at p is searching the rest of the text from p |
| FooterMatch.GroupTagless | js/slide-templates.js:322 | the captured group holds no `<` |
| FooterMatch.MatchBounds | js/slide-templates.js:322 | a match's body lies inside the text and holds no `<` |
| FooterMatch.ReplacedFirst | js/slide-templates.js:345-347 | a tag-free footer block written where the first match was is found again there, with group the trimmed body |
| FooterMatch.ReplacedFound | js/slide-templates.js:337-367 | a footer written as tag, whitespace, clean text, whitespace, `</div>` where a match was is the first match of the new text, capturing exactly that text |
| PageNumbers.PageNumber | js/slide-templates.js:338 | `k/N` is k's digits, a slash, N's digits |
| PageNumbers.RunEnd | js/slide-templates.js:354 | the maximal run of digits starting at i |
| PageNumbers.PageAttempt | js/slide-templates.js:354 | `\d+/\d+` matches at q exactly when digits, a slash and digits start there, taking both digit runs greedily |
| PageNumbers.PageScan | js/slide-templates.js:354-356 | the first `\d+/\d+` match, or no match at any position |
| PageNumbers.YearMonthAttempt | js/slide-templates.js:359 | a `\d{4}年\d+月` match at i is four digits, `年`, a digit run and the `月` ending it, at least 7 characters long |
| PageNumbers.YearMonthShapeMatches | js/slide-templates.js:359 | four digits, `年`, digits and `月` starting at i are exactly what `\d{4}年\d+月` matches at i |
| PageNumbers.YearMonthScan | js/slide-templates.js:359 | the first year-month match at or after p, with none before it; no result means no offset from p on matches |
| PageNumbers.PlaceholderLabelled | js/slide-templates.js:342-347 | a footer with the placeholder becomes the date and label whose first page number reads k/N |
| PageNumbers.PageLabelled | js/slide-templates.js:351-356 | a footer with a page number gets its first page number replaced, which then reads k/N |
| PageNumbers.DateLabelled | js/slide-templates.js:357-360 | a footer with a year-month, no placeholder and no page number gets a label after the year-month whose page number reads k/N, provided no digit directly follows the year-month (not glued) |
| PageNumbers.ReplacedPageFirst | js/slide-templates.js:354-356 | after replacing the first page number, the first page-number match is the new one |
| PageNumbers.AddedPageFirst | js/slide-templates.js:359 | after appending the label, the first page-number match is the appended one |
| PageNumbers.RewriteLabels | js/slide-templates.js:337-365 | a footer with a placeholder, page number or year-month ends up with k/N as its first page number; any other footer comes back trimmed only |
| PageNumbers.PageNumberChars | js/slide-templates.js:338 | `k/N` holds no `<` and starts and ends with a digit |
| PageNumbers.DateChars | js/slide-templates.js:339 | the date holds no `<`, starts with a digit and ends with `月` |
| PageNumbers.CleanRewrite | js/slide-templates.js:342-365 | every rewritten footer text is free of `<` and trimmed, so the new block is again a footer match |
| PageNumbers.BlockAt | js/slide-templates.js:334-367 | the j-th footer gets the block around its text rewritten with ordinal k + j |
| PageNumbers.GapCount | js/slide-templates.js:337 | there is one more gap than there are footer matches |
| PageNumbers.CountsAt | js/slide-templates.js:337 | a footer match adds exactly one gap, one footer text and one whole match |
| PageNumbers.GapsAt | js/slide-templates.js:337 | at a footer match the gaps are the text before it, then the gaps after it |
| PageNumbers.TextsAt | js/slide-templates.js:337 | at a footer match the footer texts are its trimmed group, then the texts after it |
| PageNumbers.MatchesAt | js/slide-templates.js:337 | at a footer match the whole matches are this match, then the matches after it |
| PageNumbers.FootersSplit | js/slide-templates.js:322-337 | the text is exactly its gaps interleaved with its footer matches |
| PageNumbers.RenumberedStep | js/slide-templates.js:337-367 | replacing from a resume point is the text up to the next match, its new block, then the rest with the next ordinal |
| PageNumbers.ElementsStep | js/slide-templates.js:337-367 | for any opening tag, the replace at a match is the text before it, its new block, then the replace of the rest with the next ordinal |
| PageNumbers.ElementsNone | js/slide-templates.js:337 | with no match left, the replace keeps the rest of the text |
| PageNumbers.RenumberedPieces | js/slide-templates.js:333-367 | the output is the same gaps interleaved with the rewritten blocks, whose ordinals run k, k + 1, … in document order |
| PageNumbers.RewrittenFooterFound | js/slide-templates.js:322-367 | in the output from any resume point, the first footer match is the rewritten footer and captures the new text |
| PageNumbers.PlaceholderGone | js/slide-templates.js:341-365 | a rewritten footer text never holds `PAGE_NUMBER_PLACEHOLDER` |
| PageNumbers.RereadPage | js/slide-templates.js:351-356 | a trimmed text without the placeholder whose first page number already reads k/N is rewritten to itself |
| PageNumbers.RereadPlain | js/slide-templates.js:351-360 | a footer text with no placeholder, no page number and no year-month is, once trimmed, rewritten to itself |
| PageNumbers.RewriteStable | js/slide-templates.js:337-365 | rewriting a footer text a second time with the same k, N and date gives it back, unless its year-month runs into a digit |
| PageNumbers.ElementsShift | js/slide-templates.js:337 | the global replace resumed at d + p gives what the replace of the rest `b[d..]` gives from p |
| PageNumbers.RenumberedStable | js/slide-templates.js:333-367 | renumbering the output from any resume point again, with the same first ordinal, N and date, gives it back when no footer text's year-month runs into a digit |
| PageNumbers.RenumberedIdempotent | js/slide-templates.js:319-370 | running the footer renumbering of updatePageNumbers on its own output with the same N and date changes nothing, when no footer's year-month runs into a digit |
| PageNumbers.SlideCounted | js/slide-templates.js:324-330 | each `exec` step of the count keeps count + markers left = all markers, and ends with all of them counted |
| PageNumbers.UpdatePageNumbers | js/slide-templates.js:319-370 | the output is the footer replace with ordinals from 1 and N the number of exact markers |
| InsertionPoint.LastMarker | js/slide-templates.js:429-430 | the last marker is present exactly when some marker is, and is the last one in document order |
| InsertionPoint.InsertPosition | js/slide-templates.js:420-437 | the insertion position lies within the text |
| InsertionPoint.InsertAfterCurrent | js/slide-templates.js:420-426 | whenever findCurrentSlide finds a slide, the insertion position is that slide's end |
| InsertionPoint.InsertOutsideSlides | js/slide-templates.js:428-437 | with no slide holding the cursor, the answer is the last marker's slide end when terminated, else the text length |
| InsertionPoint.InsertAtBoundary | js/slide-templates.js:420-437 | the answer is the text length or the end of some marker's slide |
| InsertionPoint.InsertInside | js/slide-templates.js:420-426 | the first enclosing marker's slide end is returned |
| InsertionPoint.InsertAfterLast | js/slide-templates.js:428-437 | with no enclosing marker, the last marker's end is used if terminated, even when earlier slides are terminated |
| InsertionPoint.MarkerCollected | js/slide-templates.js:383-389 | each `exec` step pushes the next marker, and the loop ends with all markers |
| InsertionPoint.CollectPositions | js/slide-templates.js:383-389 | one entry per exact marker, in document order, each with its end still -1 |
| InsertionPoint.DepthSearch | js/slide-templates.js:392-417 | the callback's own copy of the depth loop leaves the end at the same value findSlideEnd returns: -1 or the `</div>` that brings the depth to 0 |
| InsertionPoint.EndFound | js/slide-templates.js:411 | recording an entry's end as findSlideEnd would compute it extends the entries whose ends are known by one |
| InsertionPoint.FindEnds | js/slide-templates.js:392-417 | after the forEach pass every entry's end is the end findSlideEnd gives its marker |
| InsertionPoint.SearchStep | js/slide-templates.js:420-426 | the selection loop returns at the first terminated slide holding the cursor, else moves on |
| InsertionPoint.LastEntry | js/slide-templates.js:428-437 | with no entry holding the cursor, the answer is the last entry's end when set, else the text length |
| InsertionPoint.FindSlideInsertPosition | js/slide-templates.js:373-438 | the method's answer is exactly the specified insertion position: first slide holding the cursor, else a terminated last slide, else the text length |

## Left out

- The DOM and UI side of the image inserter is not modelled: the modal, the file picker, drag and drop, the image manager, status messages and confirm prompts. They are event wiring with no text logic.
- Browser storage and the asynchronous readers are not modelled: `saveImageToStorage`, `insertAsBase64`, `insertAsExternalFile`, `processBase64Conversions`, `getImageFromStorage`, `convertStorageImagesToDataURI` and `initializeImagesFolder`. They are I/O against local storage.
- `isValidURL` is not modelled, because it delegates to the browser's `URL` constructor.
- The clock is not modelled. `generateImageFileName` takes the timestamp as a parameter, and `updatePageNumbers` takes the year and month.
- `focus`, `updatePreview` and other calls into the page after an edit are not modelled, because they do not change the text.
- main.js is not part of this model (preview, clipboard, panel resizing, shortcuts, `addSlide` glue). Neither is autosave.js (timers and storage).
- The constant strings of `getDefaultHTML` and `getNewSlideTemplate` (js/slide-templates.js:228-316) are not modelled. Their properties (one marker and one placeholder footer; three footers reading 1/3, 2/3 and 3/3) would mean evaluating the scanning functions over literals of several hundred to several thousand characters, which the verifier cannot unfold.
- Editor.ToLower: lower-cases ASCII capitals only. JavaScript's `toLowerCase` also maps other Unicode capitals.
- Offsets are indices into `seq<char>`, not UTF-16 code units. Text with characters outside the Basic Multilingual Plane (the emoji in the new-slide template) has offsets one smaller per such character than in JavaScript.
- `fileName` is a string. JavaScript's `null` and `""` are both falsy and are treated alike by the code, so `""` stands for both.
- PageNumbers.RewriteLabels: when the year-month token is directly followed by a digit, the appended `k/N` joins that digit. The first page number then does not read k/N, so this case (`GluedDate`) is excluded from the promise.
- PageNumbers.RewrittenFooterFound: the re-scan of the output is proved for the first footer from each resume point. The whole-output statement is RenumberedIdempotent. A list-level statement that the output's footer texts are exactly the rewritten texts is not stated.
- PageNumbers.RenumberedIdempotent: it holds only when no footer's year-month is directly followed by a digit (`GluedDate`). For `2025年9月1日` the first run writes `2025年9月 - スライド 1/31日`. The second run then takes `1/31` as the page number and writes `1/3日`. The lemma also reuses the first run's N and date. It does not prove that the output has the same number of exact markers.
- SplitLayout.BodyFooterFirst: when the title comes after the footer, the body is characterised only if no `<h1` is formed across the place the footer was cut from. A title and a footer block that overlap are not characterised.
- The ordinal k is not capped at N. Footers of converted split slides are renumbered but those slides are not counted, so the model allows k > N, as the code does.
- The converted slide opens with `<div class="slide slide-split">`, which is not the exact marker. A converted slide is therefore not located again, not counted in N, and not converted a second time. The model follows this code (ConvertedSlideUnmarked) rather than describing nested re-splitting.
