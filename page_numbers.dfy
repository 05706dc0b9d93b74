/**
 * `SlideTemplates.updatePageNumbers`: the slides are counted, then every
 * footer `<div class="footer">…</div>` is rewritten in document order so that
 * it reads "k/N" for its ordinal k among the footers and the slide count N.
 *
 * The three regular expressions involved are stated as leftmost scans over
 * an attempt at one offset:
 *   - `/\d+\/\d+/` (a page number): a maximal digit run, a `/`, a digit run;
 *   - `/(\d{4}年\d+月)/` (a year and month): four digits, `年`, a maximal
 *     digit run, `月`;
 *   - `/<div class="footer">\s*([^<]*?)\s*<\/div>/g` (a footer): the opening
 *     tag, then the first `<` after it must begin `</div>`; the group is the
 *     text in between without its surrounding white space.
 */
module PageNumbers {
  import opened Text
  import opened SpanFinder
  import opened SlideLocator
  import opened SplitLayout
  import opened FooterMatch

  const Placeholder := "PAGE_NUMBER_PLACEHOLDER"
  /** What precedes the page number in a footer: " - スライド ". */
  const SlideLabel := " - スライド "
  /** The indentation of the rewritten footer text and of its closing tag. */
  const FooterIndent := "\n            "
  const FooterPad := "\n        "

  /** `p` reads digits, `/` at `m`, digits: the text `/\d+\/\d+/` matches in full. */
  predicate PageText(p: string, m: nat) {
    0 < m && m + 1 < |p| && DigitsIn(p, 0, m) && p[m] == '/' && DigitsIn(p, m + 1, |p|)
  }

  /** `${currentSlide}/${slideCount}`. */
  function PageNumber(k: nat, n: nat): (r: string)
    ensures PageText(r, |Decimal(k)|)
    ensures r[..|Decimal(k)|] == Decimal(k) && r[|Decimal(k)| + 1..] == Decimal(n)
  {
    Decimal(k) + "/" + Decimal(n)
  }

  /** `getFullYear() + '年' + (getMonth() + 1) + '月'`, with the clock reading passed in. */
  function CurrentDate(year: nat, month: nat): string {
    Decimal(year) + "年" + Decimal(month) + "月"
  }

  // ---------------------------------------------------------------------
  // Digit runs and the page-number pattern

  /** Every character in `[lo, hi)` is a digit. */
  predicate DigitsIn(s: string, lo: nat, hi: nat) {
    hi <= |s| && forall q :: lo <= q < hi ==> IsDigit(s[q])
  }

  /** The end of the maximal run of digits starting at `i` (what a greedy `\d+` consumes). */
  function RunEnd(s: string, i: nat): (j: nat)
    requires i <= |s|
    decreases |s| - i
    ensures i <= j <= |s| && DigitsIn(s, i, j)
    ensures j < |s| ==> !IsDigit(s[j])
  {
    if i < |s| && IsDigit(s[i]) then RunEnd(s, i + 1) else i
  }

  /** A run of digits that stops at a non-digit (or the end) is the maximal run. */
  lemma {:induction false} RunEndAt(s: string, i: nat, j: nat)
    requires i <= j && DigitsIn(s, i, j) && (j == |s| || !IsDigit(s[j]))
    ensures RunEnd(s, i) == j
    decreases j - i
  {
    if i < j {
      RunEndAt(s, i + 1, j);
    }
  }

  /** A page number starts at `q`: digits on `[q, j)`, then `/`, then a digit. */
  predicate PageShape(s: string, q: nat, j: nat) {
    q < j && j + 1 < |s| && DigitsIn(s, q, j) && s[j] == '/' && IsDigit(s[j + 1])
  }

  /** `/\d+\/\d+/` tried at offset `q`: the end of the match, if it matches there. */
  function PageAttempt(s: string, q: nat): (r: Option<nat>)
    requires q <= |s|
    ensures r.Some? <==> PageShape(s, q, RunEnd(s, q))
    ensures r.Some? ==> RunEnd(s, q) + 2 <= r.value <= |s| && r.value == RunEnd(s, RunEnd(s, q) + 1)
  {
    var j := RunEnd(s, q);
    if q < j && j + 1 < |s| && s[j] == '/' && IsDigit(s[j + 1]) then Some(RunEnd(s, j + 1)) else None
  }

  /** Any page-number shape at `q` is the one the greedy match finds. */
  lemma ShapeMatches(s: string, q: nat, j: nat)
    requires q <= |s|
    ensures PageShape(s, q, j) ==> PageAttempt(s, q).Some? && RunEnd(s, q) == j
  {
    if PageShape(s, q, j) {
      RunEndAt(s, q, j);
    }
  }

  /** The leftmost page number at or after `p`: its start and end. */
  function PageScan(s: string, p: nat): (r: Option<(nat, nat)>)
    requires p <= |s|
    decreases |s| - p
    ensures r.None? ==> forall q :: p <= q <= |s| ==> PageAttempt(s, q).None?
    ensures r.Some? ==> p <= r.value.0 < |s| && PageAttempt(s, r.value.0) == Some(r.value.1)
                        && forall q :: p <= q < r.value.0 ==> PageAttempt(s, q).None?
  {
    if p == |s| then None
    else match PageAttempt(s, p)
      case Some(e) => Some((p, e))
      case None => PageScan(s, p + 1)
  }

  /** A match at `i` with none before it, from `p` on, is the leftmost one. */
  lemma {:induction false} PageScanAt(s: string, p: nat, i: nat)
    requires p <= i <= |s| && PageAttempt(s, i).Some?
    requires forall q :: p <= q < i ==> PageAttempt(s, q).None?
    ensures PageScan(s, p) == Some((i, PageAttempt(s, i).value))
    decreases i - p
  {
    if p < i {
      PageScanAt(s, p + 1, i);
    }
  }

  // ---------------------------------------------------------------------
  // The year-and-month pattern

  /** A year and month runs from `i` to its `月` at `j`: four digits, `年`, at least one digit, `月`. */
  predicate YearMonthShape(s: string, i: nat, j: nat) {
    i + 5 < j < |s| && DigitsIn(s, i, i + 4) && s[i + 4] == '年' && DigitsIn(s, i + 5, j) && s[j] == '月'
  }

  /**
   * `/(\d{4}年\d+月)/` tried at offset `i`: the end of the match (just past
   * `月`). A match is a year-and-month shape ending at the `月` right after the
   * digit run; `YearMonthShapeMatches` gives the converse.
   */
  function YearMonthAttempt(s: string, i: nat): (r: Option<nat>)
    requires i <= |s|
    ensures r.Some? ==> i + 7 <= r.value <= |s| && YearMonthShape(s, i, r.value - 1)
  {
    if i + 5 < |s| && DigitsIn(s, i, i + 4) && s[i + 4] == '年' && IsDigit(s[i + 5]) then
      var j := RunEnd(s, i + 5);
      if j < |s| && s[j] == '月' then Some(j + 1) else None
    else None
  }

  /** Any year-and-month shape at `i` is what the attempt there matches: `\d+` cannot stop short of a `月`. */
  lemma YearMonthShapeMatches(s: string, i: nat, j: nat)
    requires i <= |s|
    ensures YearMonthShape(s, i, j) ==> YearMonthAttempt(s, i) == Some(j + 1)
  {
    if YearMonthShape(s, i, j) {
      RunEndAt(s, i + 5, j);
    }
  }

  /** The leftmost year-and-month at or after `p`: its start and end, or none at any offset. */
  function YearMonthScan(s: string, p: nat): (r: Option<(nat, nat)>)
    requires p <= |s|
    decreases |s| - p
    ensures r.None? ==> forall q :: p <= q <= |s| ==> YearMonthAttempt(s, q).None?
    ensures r.Some? ==> p <= r.value.0 < |s| && YearMonthAttempt(s, r.value.0) == Some(r.value.1)
                        && forall q :: p <= q < r.value.0 ==> YearMonthAttempt(s, q).None?
  {
    if p == |s| then None
    else match YearMonthAttempt(s, p)
      case Some(e) => Some((p, e))
      case None => YearMonthScan(s, p + 1)
  }

  // ---------------------------------------------------------------------
  // Rewriting the text of one footer

  /**
   * The replacement callback's text for a footer whose regular-expression
   * group is `content`, as the `k`-th footer of `n` slides: the placeholder
   * gives way to the date and the page number; otherwise the trimmed text has
   * its first page number replaced, or, without one, gets the label and page
   * number after its first year and month; a text with neither is kept.
   */
  function RewriteFooter(content: string, k: nat, n: nat, date: string): string {
    if Includes(content, Placeholder) then date + SlideLabel + PageNumber(k, n)
    else
      var t := Trim(content);
      match PageScan(t, 0)
      case Some((i, e)) => t[..i] + PageNumber(k, n) + t[e..]
      case None =>
        match YearMonthScan(t, 0)
        case Some((_, e)) => t[..e] + SlideLabel + PageNumber(k, n) + t[e..]
        case None => t
  }

  // ---------------------------------------------------------------------
  // The first page number of a rewritten footer

  /** The characters of the label are neither digits nor `/`. */
  lemma LabelChars()
    ensures Inert(SlideLabel) && SlideLabel != []
  {
  }

  /** The first page number of `u` reads `p`. */
  predicate FirstPageReads(u: string, p: string) {
    PageScan(u, 0).Some? &&
    var (i, j) := PageScan(u, 0).value;
    i <= j <= |u| && u[i..j] == p
  }

  /**
   * A page text placed after `a`, with no page number starting inside `a`
   * and no digit right after it, is the first page number of the whole.
   */
  lemma PageTextFirst(u: string, a: string, p: string, m: nat, c: string)
    requires u == a + p + c && PageText(p, m)
    requires c == [] || !IsDigit(c[0])
    requires forall q :: 0 <= q < |a| ==> PageAttempt(u, q).None?
    ensures PageScan(u, 0) == Some((|a|, |a| + |p|))
    ensures FirstPageReads(u, p)
  {
    var x := |a|;
    var y := x + |p|;
    assert forall q :: x <= q < y ==> u[q] == p[q - x];
    assert y < |u| ==> u[y] == c[0];
    RunEndAt(u, x, x + m);
    RunEndAt(u, x + m + 1, y);
    PageScanAt(u, 0, x);
    assert u[x..y] == p;
  }

  /** A page-number shape starting in `a` ends in `a` when `a` ends with a non-digit. */
  lemma ShapeInPrefix(u: string, a: string, q: nat, j: nat)
    requires |a| > 0 && !IsDigit(a[|a| - 1]) && |a| <= |u| && u[..|a|] == a && q < |a|
    ensures PageShape(u, q, j) ==> j < |a|
  {
    assert u[|a| - 1] == a[|a| - 1];
  }

  /** A digit before a run of digits extends the run backwards. */
  lemma RunBack(s: string, i: nat)
    requires 0 < i <= |s|
    ensures IsDigit(s[i - 1]) ==> RunEnd(s, i - 1) == RunEnd(s, i) && DigitsIn(s, i - 1, RunEnd(s, i))
  {
  }

  /** In the page-number branch the page number matched at `i` has no digit before it. */
  lemma NoDigitBeforeMatch(t: string, i: nat)
    requires PageScan(t, 0).Some? && PageScan(t, 0).value.0 == i && i > 0
    ensures !IsDigit(t[i - 1])
  {
    RunBack(t, i);
    ShapeMatches(t, i - 1, RunEnd(t, i));
  }

  /** A shape in `u` that `t` agrees with (up to a digit where `u` has one) is a match in `t`. */
  lemma ShapeTransfers(u: string, t: string, q: nat, j: nat, i: nat)
    requires i <= |u| && i <= |t| && u[..i] == t[..i]
    ensures PageShape(u, q, j) && (j + 1 < i || (j + 1 == i && i < |t| && IsDigit(t[i]))) ==>
              q <= |t| && PageAttempt(t, q).Some?
  {
    if PageShape(u, q, j) && (j + 1 < i || (j + 1 == i && i < |t| && IsDigit(t[i]))) {
      assert forall z :: 0 <= z < i ==> u[z] == u[..i][z];
      ShapeMatches(t, q, j);
    }
  }

  /** Text with neither digits nor `/`, such as the label. */
  predicate Inert(lab: string) {
    forall x :: 0 <= x < |lab| ==> !IsDigit(lab[x]) && lab[x] != '/'
  }

  /** A page-number shape starting before or inside an inert text ends before it. */
  lemma ShapeBeforeInert(u: string, pre: string, lab: string, p: string, c: string, q: nat, j: nat)
    requires u == pre + lab + p + c && Inert(lab) && lab != [] && q < |pre| + |lab|
    ensures PageShape(u, q, j) ==> j + 1 < |pre|
  {
    var a := pre + lab;
    assert u[..|a|] == a;
    ShapeInPrefix(u, a, q, j);
    assert |pre| <= j < |a| ==> u[j] == lab[j - |pre|];
    assert u[|pre|] == lab[0];
  }

  /** Replacing the first page number: the new one is the first page number. */
  lemma ReplacedPageFirst(t: string, p: string, m: nat)
    requires PageScan(t, 0).Some? && PageText(p, m)
    ensures var (i, e) := PageScan(t, 0).value;
            FirstPageReads(t[..i] + p + t[e..], p)
  {
    var i := PageScan(t, 0).value.0;
    var e := PageScan(t, 0).value.1;
    var u := t[..i] + p + t[e..];
    if i > 0 {
      NoDigitBeforeMatch(t, i);
      assert u[..i] == t[..i];
      forall q | 0 <= q < i ensures PageAttempt(u, q).None? {
        ShapeInPrefix(u, t[..i], q, RunEnd(u, q));
        ShapeTransfers(u, t, q, RunEnd(u, q), i);
      }
    }
    PageTextFirst(u, t[..i], p, m, t[e..]);
  }

  /** No page number starts before the end of an inert text inserted at `e` of a text without one. */
  lemma NoEarlyPage(t: string, e: nat, lab: string, p: string, c: string)
    requires e <= |t| && PageScan(t, 0).None? && Inert(lab) && lab != []
    ensures forall q :: 0 <= q < e + |lab| ==> PageAttempt(t[..e] + lab + p + c, q).None?
  {
    var u := t[..e] + lab + p + c;
    assert u[..e] == t[..e];
    forall q | 0 <= q < e + |lab| ensures PageAttempt(u, q).None? {
      ShapeBeforeInert(u, t[..e], lab, p, c, q, RunEnd(u, q));
      ShapeTransfers(u, t, q, RunEnd(u, q), e);
    }
  }

  /** An inert text and a page number inserted at `e` of a text without page number: that page number is first. */
  lemma InsertedPageFirst(t: string, e: nat, lab: string, p: string, m: nat)
    requires e <= |t| && PageScan(t, 0).None? && Inert(lab) && lab != [] && PageText(p, m)
    requires e == |t| || !IsDigit(t[e])
    ensures FirstPageReads(t[..e] + lab + p + t[e..], p)
  {
    NoEarlyPage(t, e, lab, p, t[e..]);
    PageTextFirst(t[..e] + lab + p + t[e..], t[..e] + lab, p, m, t[e..]);
  }

  /**
   * Adding the label and page number after the first year and month of a
   * text without page number: the added one is the first page number when no
   * digit follows the year and month.
   */
  lemma AddedPageFirst(t: string, p: string, m: nat)
    requires PageScan(t, 0).None? && YearMonthScan(t, 0).Some? && PageText(p, m)
    requires var e := YearMonthScan(t, 0).value.1; e == |t| || !IsDigit(t[e])
    ensures var e := YearMonthScan(t, 0).value.1;
            FirstPageReads(t[..e] + SlideLabel + p + t[e..], p)
  {
    LabelChars();
    InsertedPageFirst(t, YearMonthScan(t, 0).value.1, SlideLabel, p, m);
  }

  /** No `/` in `s`. */
  predicate SlashFree(s: string) {
    forall x :: 0 <= x < |s| ==> s[x] != '/'
  }

  /** No match at or after `p` means the scan from `p` finds none. */
  lemma {:induction false} PageScanNone(s: string, p: nat)
    requires p <= |s| && forall q :: p <= q <= |s| ==> PageAttempt(s, q).None?
    ensures PageScan(s, p).None?
    decreases |s| - p
  {
    if p < |s| {
      PageScanNone(s, p + 1);
    }
  }

  /** A text without `/` holds no page number. */
  lemma SlashFreeNoPage(s: string)
    requires SlashFree(s)
    ensures PageScan(s, 0).None?
  {
    PageScanNone(s, 0);
  }

  /** The date holds no `/`. */
  lemma DateSlashFree(year: nat, month: nat)
    ensures SlashFree(CurrentDate(year, month))
  {
    var y, m := Decimal(year), Decimal(month);
    assert forall x :: 0 <= x < |y| ==> IsDigit(y[x]);
    assert forall x :: 0 <= x < |m| ==> IsDigit(m[x]);
  }

  /** The footer text holds one of the three things the rewrite labels: placeholder, page number, year and month. */
  predicate Labelled(content: string) {
    Includes(content, Placeholder) || PageScan(Trim(content), 0).Some? || YearMonthScan(Trim(content), 0).Some?
  }

  /** A year and month, used because there is no page number, runs straight into a digit (`2025年9月1日`). */
  predicate GluedDate(content: string) {
    var t := Trim(content);
    !Includes(content, Placeholder) && PageScan(t, 0).None? && YearMonthScan(t, 0).Some? &&
    YearMonthScan(t, 0).value.1 < |t| && IsDigit(t[YearMonthScan(t, 0).value.1])
  }

  /** A text without `/`, an inert text and a page text: that page text is the first page number. */
  lemma AppendedPageFirst(d: string, lab: string, p: string, m: nat)
    requires SlashFree(d) && Inert(lab) && lab != [] && PageText(p, m)
    ensures FirstPageReads(d + lab + p, p)
  {
    SlashFreeNoPage(d);
    InsertedPageFirst(d, |d|, lab, p, m);
    assert d[..|d|] + lab + p + d[|d|..] == d + lab + p;
  }

  /** The placeholder branch: the date, the label and `k/N`, whose page number is first. */
  lemma PlaceholderLabelled(content: string, k: nat, n: nat, year: nat, month: nat)
    requires Includes(content, Placeholder)
    ensures FirstPageReads(RewriteFooter(content, k, n, CurrentDate(year, month)), PageNumber(k, n))
  {
    DateSlashFree(year, month);
    LabelChars();
    AppendedPageFirst(CurrentDate(year, month), SlideLabel, PageNumber(k, n), |Decimal(k)|);
  }

  /** The page-number branch: the first page number now reads `k/N`. */
  lemma PageLabelled(content: string, k: nat, n: nat, date: string)
    requires !Includes(content, Placeholder) && PageScan(Trim(content), 0).Some?
    ensures FirstPageReads(RewriteFooter(content, k, n, date), PageNumber(k, n))
  {
    ReplacedPageFirst(Trim(content), PageNumber(k, n), |Decimal(k)|);
  }

  /** The year-and-month branch: the added `k/N` is the first page number unless a digit follows. */
  lemma DateLabelled(content: string, k: nat, n: nat, date: string)
    requires !Includes(content, Placeholder) && PageScan(Trim(content), 0).None?
    requires YearMonthScan(Trim(content), 0).Some? && !GluedDate(content)
    ensures FirstPageReads(RewriteFooter(content, k, n, date), PageNumber(k, n))
  {
    AddedPageFirst(Trim(content), PageNumber(k, n), |Decimal(k)|);
  }

  /**
   * What one footer's rewrite achieves: a labelled text ends up with `k/N` as
   * its first page number (so the next renumbering finds it again), and any
   * other text is only trimmed.
   */
  lemma RewriteLabels(content: string, k: nat, n: nat, year: nat, month: nat)
    ensures var r := RewriteFooter(content, k, n, CurrentDate(year, month));
            (Labelled(content) && !GluedDate(content) ==> FirstPageReads(r, PageNumber(k, n))) &&
            (!Labelled(content) ==> r == Trim(content))
  {
    if Includes(content, Placeholder) {
      PlaceholderLabelled(content, k, n, year, month);
    } else if PageScan(Trim(content), 0).Some? {
      PageLabelled(content, k, n, CurrentDate(year, month));
    } else if YearMonthScan(Trim(content), 0).Some? && !GluedDate(content) {
      DateLabelled(content, k, n, CurrentDate(year, month));
    }
  }

  // ---------------------------------------------------------------------
  // The rewritten footer text is a footer text again

  /** No `<` in `s`. */
  predicate Tagless(s: string) {
    '<' !in s
  }

  /** `s` neither starts nor ends with white space: `trim` leaves it as it is. */
  predicate Trimmed(s: string) {
    s == [] || (!IsSpace(s[0]) && !IsSpace(s[|s| - 1]))
  }

  /** The page number is digits and `/`, starting and ending with a digit. */
  lemma PageNumberChars(k: nat, n: nat)
    ensures var r := PageNumber(k, n);
            Tagless(r) && |r| >= 3 && IsDigit(r[0]) && IsDigit(r[|r| - 1])
  {
    var r := PageNumber(k, n);
    assert r[|Decimal(k)| + 1..] == Decimal(n);
    assert r[|r| - 1] == Decimal(n)[|Decimal(n)| - 1];
  }

  /** The date is digits, `年` and `月`, starting with a digit and ending with `月`. */
  lemma DateChars(year: nat, month: nat)
    ensures var d := CurrentDate(year, month);
            Tagless(d) && d != [] && IsDigit(d[0]) && d[|d| - 1] == '月'
  {
    var y, m := Decimal(year), Decimal(month);
    assert forall x :: 0 <= x < |y| ==> IsDigit(y[x]);
    assert forall x :: 0 <= x < |m| ==> IsDigit(m[x]);
  }

  /**
   * Putting a text `m` without `<` into a clean text `t` in place of
   * `t[i..e]` keeps it clean, as long as the whole starts and ends with
   * something other than white space.
   */
  lemma SpliceClean(t: string, i: nat, e: nat, m: string)
    requires i <= e <= |t| && Tagless(t) && Trimmed(t) && Tagless(m)
    requires m != [] && !IsSpace(m[|m| - 1]) && (0 < i || !IsSpace(m[0]))
    ensures Tagless(t[..i] + m + t[e..]) && Trimmed(t[..i] + m + t[e..])
  {
    var u := t[..i] + m + t[e..];
    assert u[0] == if 0 < i then t[0] else m[0];
    assert u[|u| - 1] == if e < |t| then t[|t| - 1] else m[|m| - 1];
    assert forall x :: 0 <= x < |u| ==> u[x] in t || u[x] in m;
  }

  /** The placeholder branch gives a clean text. */
  lemma CleanPlaceholder(date: string, pn: string)
    requires Tagless(date) && Trimmed(date) && date != []
    requires Tagless(pn) && pn != [] && !IsSpace(pn[|pn| - 1])
    ensures Tagless(date + SlideLabel + pn) && Trimmed(date + SlideLabel + pn)
  {
    LabelChars();
    assert Tagless(SlideLabel + pn) && (SlideLabel + pn)[|SlideLabel + pn| - 1] == pn[|pn| - 1];
    SpliceClean(date, |date|, |date|, SlideLabel + pn);
    assert date[..|date|] + (SlideLabel + pn) + date[|date|..] == date + SlideLabel + pn;
  }

  /** The trimmed footer text of a group without `<` is clean. */
  lemma CleanTrim(content: string)
    requires Tagless(content)
    ensures Tagless(Trim(content)) && Trimmed(Trim(content))
  {
    TrimWithout(content, '<');
    TrimShape(content);
  }

  /** The year-and-month branch: the label and page number go after a year and month inside a clean text. */
  lemma CleanInsert(t: string, e: nat, pn: string)
    requires 0 < e <= |t| && Tagless(t) && Trimmed(t)
    requires Tagless(pn) && pn != [] && !IsSpace(pn[|pn| - 1])
    ensures Tagless(t[..e] + SlideLabel + pn + t[e..]) && Trimmed(t[..e] + SlideLabel + pn + t[e..])
  {
    LabelChars();
    assert Tagless(SlideLabel + pn) && (SlideLabel + pn)[|SlideLabel + pn| - 1] == pn[|pn| - 1];
    SpliceClean(t, e, e, SlideLabel + pn);
    assert t[..e] + (SlideLabel + pn) + t[e..] == t[..e] + SlideLabel + pn + t[e..];
  }

  /** The page-number and year-and-month branches give a clean text from a clean one. */
  lemma CleanRelabel(t: string, pn: string)
    requires Tagless(t) && Trimmed(t)
    requires Tagless(pn) && pn != [] && !IsSpace(pn[0]) && !IsSpace(pn[|pn| - 1])
    ensures var r := match PageScan(t, 0)
              case Some((i, e)) => t[..i] + pn + t[e..]
              case None =>
                match YearMonthScan(t, 0)
                case Some((_, e)) => t[..e] + SlideLabel + pn + t[e..]
                case None => t;
            Tagless(r) && Trimmed(r)
  {
    match PageScan(t, 0)
    case Some((i, e)) =>
      SpliceClean(t, i, e, pn);
    case None =>
      match YearMonthScan(t, 0)
      case Some((_, e)) =>
        CleanInsert(t, e, pn);
      case None =>
  }

  /**
   * The callback's text for a footer group without `<` holds no `<` and
   * neither starts nor ends with white space, so the footer it is put back
   * into is matched again with exactly that text as its group.
   */
  lemma CleanRewrite(content: string, k: nat, n: nat, year: nat, month: nat)
    requires Tagless(content)
    ensures var r := RewriteFooter(content, k, n, CurrentDate(year, month));
            Tagless(r) && Trimmed(r)
  {
    DateClean(year, month);
    PageClean(k, n);
    CleanRewriteWith(content, k, n, CurrentDate(year, month));
  }

  /** The date is clean and not empty. */
  lemma DateClean(year: nat, month: nat)
    ensures var d := CurrentDate(year, month);
            Tagless(d) && Trimmed(d) && d != []
  {
    DateChars(year, month);
  }

  /** The page number is clean and not empty. */
  lemma PageClean(k: nat, n: nat)
    ensures var pn := PageNumber(k, n);
            Tagless(pn) && Trimmed(pn) && pn != []
  {
    PageNumberChars(k, n);
  }

  /** `CleanRewrite` for any clean, non-empty date. */
  lemma CleanRewriteWith(content: string, k: nat, n: nat, date: string)
    requires Tagless(content) && Tagless(date) && Trimmed(date) && date != []
    requires var pn := PageNumber(k, n); Tagless(pn) && Trimmed(pn) && pn != []
    ensures var r := RewriteFooter(content, k, n, date);
            Tagless(r) && Trimmed(r)
  {
    if Includes(content, Placeholder) {
      CleanPlaceholder(date, PageNumber(k, n));
    } else {
      CleanTrim(content);
      CleanRelabel(Trim(content), PageNumber(k, n));
    }
  }

  // ---------------------------------------------------------------------
  // The global footer replace

  /** The opening footer tag holds no other `<` and does not start a closing tag. */
  lemma FooterOpenTag()
    ensures OpenTag(FooterOpen) && |DivClose| <= |FooterOpen|
  {
  }

  /** The white space around the new footer text holds no `<`. */
  lemma PaddingClean()
    ensures AllSpace(FooterIndent) && AllSpace(FooterPad) && '<' !in FooterIndent && '<' !in FooterPad
  {
  }

  /** The callback's replacement for a footer whose new text is `text`. */
  function FooterBlock(text: string): string {
    FooterOpen + (FooterIndent + text + FooterPad) + DivClose
  }

  /**
   * The text from `p` on after the global footer replace, its search resuming
   * at `p` with `currentSlide` at `k`: each footer match gives way to the
   * block around its rewritten text, the text between matches is kept.
   */
  function Renumbered(b: string, p: nat, k: nat, n: nat, date: string): string
    requires p <= |b|
  {
    RewriteElements(b, FooterOpen, p, k, n, date)
  }

  /**
   * The same rewrite for elements opened by any tag `open`; `Renumbered` is
   * this with the footer's opening tag.  Keeping the tag a parameter keeps
   * proofs about one step from unfolding the literal.
   */
  function RewriteElements(b: string, open: string, p: nat, k: nat, n: nat, date: string): string
    requires p <= |b|
    decreases |b| - p, 1
  {
    RewriteAt(b, open, p, k, n, date, ElementScan(b, open, p))
  }

  /** `e` can be the scan's answer from `p`: none, or an element from `p` on that lies within `b`. */
  predicate Fits(b: string, open: string, p: nat, e: Option<Element>) {
    e.Some? ==> p <= e.value.start && e.value.start + |open| <= e.value.close && e.value.close + CloseWidth <= |b|
  }

  /** The replace from `p` on, once the scan from `p` has given `e`. */
  function RewriteAt(b: string, open: string, p: nat, k: nat, n: nat, date: string, e: Option<Element>): string
    requires p <= |b| && Fits(b, open, p, e)
    decreases |b| - p, 0
  {
    match e
    case None => b[p..]
    case Some(Element(i, c)) =>
      b[p..i] + FooterBlock(RewriteFooter(ElementGroup(b, open, i, c), k, n, date))
      + RewriteElements(b, open, c + CloseWidth, k + 1, n, date)
  }

  /** The footer groups from `p` on, in document order. */
  function FooterTexts(b: string, p: nat): seq<string>
    requires p <= |b|
    decreases |b| - p, 1
  {
    TextsWith(b, p, ElementScan(b, FooterOpen, p))
  }

  function TextsWith(b: string, p: nat, e: Option<Element>): seq<string>
    requires p <= |b| && Fits(b, FooterOpen, p, e)
    decreases |b| - p, 0
  {
    match e
    case None => []
    case Some(Element(i, c)) => [ElementGroup(b, FooterOpen, i, c)] + FooterTexts(b, c + CloseWidth)
  }

  /** The whole footer matches from `p` on, in document order. */
  function FooterMatches(b: string, p: nat): seq<string>
    requires p <= |b|
    decreases |b| - p, 1
  {
    MatchesWith(b, p, ElementScan(b, FooterOpen, p))
  }

  function MatchesWith(b: string, p: nat, e: Option<Element>): seq<string>
    requires p <= |b| && Fits(b, FooterOpen, p, e)
    decreases |b| - p, 0
  {
    match e
    case None => []
    case Some(Element(i, c)) => [b[i..c + CloseWidth]] + FooterMatches(b, c + CloseWidth)
  }

  /** The text around the footers from `p` on: before the first, between each two, after the last. */
  function Gaps(b: string, p: nat): seq<string>
    requires p <= |b|
    decreases |b| - p, 1
  {
    GapsWith(b, p, ElementScan(b, FooterOpen, p))
  }

  function GapsWith(b: string, p: nat, e: Option<Element>): seq<string>
    requires p <= |b| && Fits(b, FooterOpen, p, e)
    decreases |b| - p, 0
  {
    match e
    case None => [b[p..]]
    case Some(Element(i, c)) => [b[p..i]] + Gaps(b, c + CloseWidth)
  }

  /** `gs[0] + bs[0] + gs[1] + … + bs[m - 1] + gs[m]`. */
  function Interleave(gs: seq<string>, bs: seq<string>): string
    requires |gs| == |bs| + 1
    decreases |bs|
  {
    if bs == [] then gs[0] else gs[0] + bs[0] + Interleave(gs[1..], bs[1..])
  }

  /** The blocks for footer texts `ts` numbered from `k` on: the `j`-th is numbered `k + j`. */
  function Blocks(ts: seq<string>, k: nat, n: nat, date: string): (r: seq<string>)
    decreases |ts|
    ensures |r| == |ts|
  {
    if ts == [] then []
    else [FooterBlock(RewriteFooter(ts[0], k, n, date))] + Blocks(ts[1..], k + 1, n, date)
  }

  /** The `j`-th block is the `j`-th footer text rewritten as footer `k + j`. */
  lemma {:induction false} BlockAt(ts: seq<string>, k: nat, n: nat, date: string, j: nat)
    requires j < |ts|
    ensures Blocks(ts, k, n, date)[j] == FooterBlock(RewriteFooter(ts[j], k + j, n, date))
    decreases j
  {
    if j > 0 {
      BlockAt(ts[1..], k + 1, n, date, j - 1);
      assert ts[1..][j - 1] == ts[j];
    }
  }

  /** One more gap than footers. */
  lemma {:induction false} GapCount(b: string, p: nat)
    requires p <= |b|
    ensures |Gaps(b, p)| == |FooterTexts(b, p)| + 1 && |FooterMatches(b, p)| == |FooterTexts(b, p)|
    decreases |b| - p
  {
    match ElementScan(b, FooterOpen, p)
    case None =>
    case Some(Element(i, c)) =>
      CountsAt(b, p, i, c, c + CloseWidth);
      GapCount(b, c + CloseWidth);
  }

  /** A footer match adds one gap, one footer text and one footer match. */
  lemma CountsAt(b: string, p: nat, i: nat, c: nat, q: nat)
    requires p <= |b| && ElementScan(b, FooterOpen, p) == Some(Element(i, c)) && q == c + CloseWidth
    ensures q <= |b|
    ensures |Gaps(b, p)| == |Gaps(b, q)| + 1 && |FooterTexts(b, p)| == |FooterTexts(b, q)| + 1
    ensures |FooterMatches(b, p)| == |FooterMatches(b, q)| + 1
  {
    GapsAt(b, p, i, c, q);
    TextsAt(b, p, i, c, q);
    MatchesAt(b, p, i, c, q);
  }

  /** The text is its gaps interleaved with its footer matches. */
  lemma {:induction false} FootersSplit(b: string, p: nat)
    requires p <= |b|
    ensures |Gaps(b, p)| == |FooterMatches(b, p)| + 1
    ensures b[p..] == Interleave(Gaps(b, p), FooterMatches(b, p))
    decreases |b| - p
  {
    GapCount(b, p);
    match ElementScan(b, FooterOpen, p)
    case None =>
    case Some(Element(i, c)) =>
      var q := c + CloseWidth;
      FootersSplit(b, q);
      SplitStep(b, p, i, c, q);
  }

  /** One step of `FootersSplit`: the text up to the footer, the footer, the rest. */
  lemma SplitStep(b: string, p: nat, i: nat, c: nat, q: nat)
    requires p <= |b| && ElementScan(b, FooterOpen, p) == Some(Element(i, c)) && q == c + CloseWidth
    requires |Gaps(b, q)| == |FooterMatches(b, q)| + 1
    requires b[q..] == Interleave(Gaps(b, q), FooterMatches(b, q))
    ensures |Gaps(b, p)| == |FooterMatches(b, p)| + 1
    ensures b[p..] == Interleave(Gaps(b, p), FooterMatches(b, p))
  {
    GapsAt(b, p, i, c, q);
    MatchesAt(b, p, i, c, q);
    InterleaveCons(b[p..i], Gaps(b, q), b[i..q], FooterMatches(b, q));
    SliceThree(b, p, i, q);
  }

  /** A suffix is its first two pieces and the rest. */
  lemma SliceThree(b: string, p: nat, i: nat, q: nat)
    requires p <= i <= q <= |b|
    ensures b[p..] == b[p..i] + b[i..q] + b[q..]
  {
  }

  /**
   * Every footer match, in document order, is replaced by the block around
   * its rewritten text numbered `k`, `k + 1`, …; the text around the
   * footers is kept as it is.
   */
  lemma {:induction false} RenumberedPieces(b: string, p: nat, k: nat, n: nat, date: string)
    requires p <= |b|
    ensures |Gaps(b, p)| == |FooterTexts(b, p)| + 1
    ensures Renumbered(b, p, k, n, date) == Interleave(Gaps(b, p), Blocks(FooterTexts(b, p), k, n, date))
    decreases |b| - p
  {
    GapCount(b, p);
    match ElementScan(b, FooterOpen, p)
    case None =>
      ElementsNone(b, FooterOpen, p, k, n, date);
    case Some(Element(i, c)) =>
      var q := c + CloseWidth;
      RenumberedPieces(b, q, k + 1, n, date);
      PiecesStep(b, p, k, n, date, i, c, q);
  }

  /** One step of `RenumberedPieces`. */
  lemma PiecesStep(b: string, p: nat, k: nat, n: nat, date: string, i: nat, c: nat, q: nat)
    requires p <= |b| && ElementScan(b, FooterOpen, p) == Some(Element(i, c)) && q == c + CloseWidth
    requires |Gaps(b, q)| == |FooterTexts(b, q)| + 1
    requires Renumbered(b, q, k + 1, n, date) == Interleave(Gaps(b, q), Blocks(FooterTexts(b, q), k + 1, n, date))
    ensures |Gaps(b, p)| == |FooterTexts(b, p)| + 1
    ensures Renumbered(b, p, k, n, date) == Interleave(Gaps(b, p), Blocks(FooterTexts(b, p), k, n, date))
  {
    var g := ElementGroup(b, FooterOpen, i, c);
    PiecesAt(b, p, i, c, q);
    BlocksCons(g, FooterTexts(b, q), k, n, date);
    InterleaveCons(b[p..i], Gaps(b, q), FooterBlock(RewriteFooter(g, k, n, date)), Blocks(FooterTexts(b, q), k + 1, n, date));
    RenumberedStep(b, p, k, n, date, i, c, q);
  }

  /** The gaps and footer texts at a footer match: the first of each, then those of the rest. */
  lemma PiecesAt(b: string, p: nat, i: nat, c: nat, q: nat)
    requires p <= |b| && ElementScan(b, FooterOpen, p) == Some(Element(i, c)) && q == c + CloseWidth
    ensures p <= i <= q <= |b|
    ensures Gaps(b, p) == [b[p..i]] + Gaps(b, q)
    ensures FooterTexts(b, p) == [ElementGroup(b, FooterOpen, i, c)] + FooterTexts(b, q)
  {
    GapsAt(b, p, i, c, q);
    TextsAt(b, p, i, c, q);
  }

  /** The gaps at a footer match: the text before it, then the gaps of the rest. */
  lemma GapsAt(b: string, p: nat, i: nat, c: nat, q: nat)
    requires p <= |b| && ElementScan(b, FooterOpen, p) == Some(Element(i, c)) && q == c + CloseWidth
    ensures p <= i <= q <= |b|
    ensures Gaps(b, p) == [b[p..i]] + Gaps(b, q)
  {
    GapsFound(b, p, i, c, q);
  }

  lemma GapsFound(b: string, p: nat, i: nat, c: nat, q: nat)
    requires p <= i && i + |FooterOpen| <= c && q == c + CloseWidth && q <= |b|
    ensures GapsWith(b, p, Some(Element(i, c))) == [b[p..i]] + Gaps(b, q)
  {
  }

  /** The footer texts at a footer match: its group, then the texts of the rest. */
  lemma TextsAt(b: string, p: nat, i: nat, c: nat, q: nat)
    requires p <= |b| && ElementScan(b, FooterOpen, p) == Some(Element(i, c)) && q == c + CloseWidth
    ensures i + |FooterOpen| <= c <= q <= |b|
    ensures FooterTexts(b, p) == [ElementGroup(b, FooterOpen, i, c)] + FooterTexts(b, q)
  {
    TextsFound(b, p, i, c, q);
  }

  lemma TextsFound(b: string, p: nat, i: nat, c: nat, q: nat)
    requires p <= i && i + |FooterOpen| <= c && q == c + CloseWidth && q <= |b|
    ensures TextsWith(b, p, Some(Element(i, c))) == [ElementGroup(b, FooterOpen, i, c)] + FooterTexts(b, q)
  {
  }

  /** The footer matches at a footer match: the whole match, then the matches of the rest. */
  lemma MatchesAt(b: string, p: nat, i: nat, c: nat, q: nat)
    requires p <= |b| && ElementScan(b, FooterOpen, p) == Some(Element(i, c)) && q == c + CloseWidth
    ensures i <= q <= |b|
    ensures FooterMatches(b, p) == [b[i..q]] + FooterMatches(b, q)
  {
    MatchesFound(b, p, i, c, q);
  }

  lemma MatchesFound(b: string, p: nat, i: nat, c: nat, q: nat)
    requires p <= i && i + |FooterOpen| <= c && q == c + CloseWidth && q <= |b|
    ensures MatchesWith(b, p, Some(Element(i, c))) == [b[i..q]] + FooterMatches(b, q)
  {
  }

  /** The blocks of a first text and some more: its block numbered `k`, then theirs from `k + 1`. */
  lemma BlocksCons(t: string, ts: seq<string>, k: nat, n: nat, date: string)
    ensures Blocks([t] + ts, k, n, date) == [FooterBlock(RewriteFooter(t, k, n, date))] + Blocks(ts, k + 1, n, date)
  {
    assert ([t] + ts)[1..] == ts;
  }

  /** Interleaving a first gap and block, then some more. */
  lemma InterleaveCons(g: string, gs: seq<string>, x: string, xs: seq<string>)
    requires |gs| == |xs| + 1
    ensures Interleave([g] + gs, [x] + xs) == g + x + Interleave(gs, xs)
  {
    assert ([g] + gs)[1..] == gs && ([x] + xs)[1..] == xs;
  }

  /** The replace at a footer match: the text before it, its block, and the replace of the rest. */
  lemma RenumberedStep(b: string, p: nat, k: nat, n: nat, date: string, i: nat, c: nat, q: nat)
    requires p <= |b| && ElementScan(b, FooterOpen, p) == Some(Element(i, c)) && q == c + CloseWidth
    ensures i <= q <= |b|
    ensures Renumbered(b, p, k, n, date)
            == b[p..i] + FooterBlock(RewriteFooter(ElementGroup(b, FooterOpen, i, c), k, n, date))
               + Renumbered(b, q, k + 1, n, date)
  {
    ElementsStep(b, FooterOpen, p, k, n, date, i, c, q);
  }

  /** `RewriteElements` one element at a time, for any opening tag. */
  lemma ElementsStep(b: string, open: string, p: nat, k: nat, n: nat, date: string, i: nat, c: nat, q: nat)
    requires p <= |b| && ElementScan(b, open, p) == Some(Element(i, c)) && q == c + CloseWidth
    ensures i <= q <= |b|
    ensures RewriteElements(b, open, p, k, n, date)
            == b[p..i] + FooterBlock(RewriteFooter(ElementGroup(b, open, i, c), k, n, date))
               + RewriteElements(b, open, q, k + 1, n, date)
  {
    RewriteFound(b, open, p, k, n, date, i, c, q);
  }

  /** With no element left, the rest of the text is kept. */
  lemma ElementsNone(b: string, open: string, p: nat, k: nat, n: nat, date: string)
    requires p <= |b| && ElementScan(b, open, p) == None
    ensures RewriteElements(b, open, p, k, n, date) == b[p..]
  {
  }

  /** `RewriteAt` at a found element: the text before it, its block, the replace of the rest. */
  lemma RewriteFound(b: string, open: string, p: nat, k: nat, n: nat, date: string, i: nat, c: nat, q: nat)
    requires p <= i && i + |open| <= c && q == c + CloseWidth && q <= |b|
    ensures RewriteAt(b, open, p, k, n, date, Some(Element(i, c)))
            == b[p..i] + FooterBlock(RewriteFooter(ElementGroup(b, open, i, c), k, n, date))
               + RewriteElements(b, open, q, k + 1, n, date)
  {
  }

  /** One more match of the marker expression: one more slide counted. */
  lemma SlideCounted(b: string, slideCount: nat, lastIndex: nat, m: int)
    requires slideCount + |MarkersFrom(b, lastIndex)| == |Markers(b)|
    requires m == IndexOf(b, SlideMarker, lastIndex)
    ensures m == -1 ==> slideCount == |Markers(b)|
    ensures m != -1 ==>
              lastIndex < m + |SlideMarker| <= |b| &&
              slideCount + 1 + |MarkersFrom(b, m + |SlideMarker|)| == |Markers(b)|
  {
    MarkersNext(b, lastIndex, m);
  }

  /**
   * `SlideTemplates.updatePageNumbers`, with the clock reading passed in:
   * the slides are counted by the global marker expression, then the global
   * footer replace numbers every footer from 1 on.
   */
  method UpdatePageNumbers(htmlContent: string, year: nat, month: nat) returns (updated: string)
    ensures updated == Renumbered(htmlContent, 0, 1, |Markers(htmlContent)|, CurrentDate(year, month))
  {
    var slideCount: nat := 0;
    var lastIndex: nat := 0;
    while true
      invariant lastIndex <= |htmlContent|
      invariant slideCount + |MarkersFrom(htmlContent, lastIndex)| == |Markers(htmlContent)|
      decreases |htmlContent| - lastIndex
    {
      var m := IndexOf(htmlContent, SlideMarker, lastIndex);
      SlideCounted(htmlContent, slideCount, lastIndex, m);
      if m == -1 {
        break;
      }
      slideCount := slideCount + 1;
      lastIndex := m + |SlideMarker|;
    }
    updated := Renumbered(htmlContent, 0, 1, slideCount, CurrentDate(year, month));
  }

  // ---------------------------------------------------------------------
  // A rewritten footer is found again

  /**
   * The first footer from `p` on, whose rewritten text is `text`, is the
   * first footer of `s`, the replace's output from `p` on, and its group is
   * exactly `text`; so a later renumbering finds it again and reads what was
   * written.
   */
  lemma RewrittenFooterFound(b: string, p: nat, i: nat, c: nat, k: nat, n: nat, year: nat, month: nat, text: string, s: string, e: nat)
    requires p <= |b| && ElementScan(b, FooterOpen, p) == Some(Element(i, c))
    requires text == RewriteFooter(ElementGroup(b, FooterOpen, i, c), k, n, CurrentDate(year, month))
    requires s == Renumbered(b, p, k, n, CurrentDate(year, month))
    requires e == i - p + |FooterOpen| + |FooterIndent + text + FooterPad|
    ensures ElementScan(s, FooterOpen, 0) == Some(Element(i - p, e)) && ElementGroup(s, FooterOpen, i - p, e) == text
  {
    var date := CurrentDate(year, month);
    var g := ElementGroup(b, FooterOpen, i, c);
    MatchBounds(b, FooterOpen, p, i, c);
    GroupTagless(b, FooterOpen, i, c);
    CleanRewrite(g, k, n, year, month);
    FirstBlock(b, p, i, c, k, n, date, text, s, Renumbered(b, c + CloseWidth, k + 1, n, date), e);
  }

  /**
   * The first footer from `p` on replaced by the block around a clean text:
   * that block is the first footer of the result, and its group is the text.
   */
  lemma BlockFound(b: string, p: nat, i: nat, c: nat, text: string, rest: string, s: string, e: nat)
    requires p <= |b| && ElementScan(b, FooterOpen, p) == Some(Element(i, c))
    requires Tagless(text) && Trimmed(text)
    requires s == b[p..i] + FooterBlock(text) + rest
    requires e == i - p + |FooterOpen| + |FooterIndent + text + FooterPad|
    ensures ElementScan(s, FooterOpen, 0) == Some(Element(i - p, e)) && ElementGroup(s, FooterOpen, i - p, e) == text
    ensures e + CloseWidth == i - p + |FooterBlock(text)|
  {
    FooterOpenTag();
    PaddingClean();
    ReplacedFound(b, FooterOpen, p, i, c, FooterIndent, text, FooterPad, rest, s);
  }

  // ---------------------------------------------------------------------
  // Renumbering twice changes nothing more

  /** No character of `m` occurs in `pat`. */
  predicate Outside(m: string, pat: string) {
    forall x :: 0 <= x < |m| ==> m[x] !in pat
  }

  /**
   * Putting a text whose characters are foreign to `pat` in place of
   * `t[i..e]`, in a text without `pat`, does not form `pat`: an occurrence
   * would lie before the new text, after it, or share a character with it.
   */
  lemma SpliceExcludes(t: string, i: nat, e: nat, m: string, pat: string)
    requires pat != [] && m != [] && i <= e <= |t| && !Includes(t, pat) && Outside(m, pat)
    ensures !Includes(t[..i] + m + t[e..], pat)
  {
    var u := t[..i] + m + t[e..];
    forall j: nat ensures !OccursAt(u, pat, j) {
      if j + |pat| <= |u| {
        if j + |pat| <= i {
          SpliceHead(t, i, e, m, j, |pat|);
          assert !OccursAt(t, pat, j);
        } else if i + |m| <= j {
          var j' := j - i - |m| + e;
          SpliceTail(t, i, e, m, j, |pat|);
          assert !OccursAt(t, pat, j');
        } else {
          var x := if i <= j then j else i;
          assert u[x] == m[x - i] && m[x - i] !in pat;
          assert u[j..j + |pat|][x - j] == u[x];
        }
      }
    }
  }

  /** A window of `t[..i] + m + t[e..]` that ends by `i` is the same window of `t`. */
  lemma SpliceHead(t: string, i: nat, e: nat, m: string, j: nat, len: nat)
    requires i <= e <= |t| && j + len <= i
    ensures (t[..i] + m + t[e..])[j..j + len] == t[j..j + len]
  {
    var u := t[..i] + m + t[e..];
    forall w | j <= w < j + len ensures u[w] == t[w] {}
  }

  /** A window of `t[..i] + m + t[e..]` that starts after `m` is a window of `t` moved by `e - i - |m|`. */
  lemma SpliceTail(t: string, i: nat, e: nat, m: string, j: nat, len: nat)
    requires i <= e <= |t| && i + |m| <= j && j + len <= i + |m| + |t| - e
    ensures (t[..i] + m + t[e..])[j..j + len] == t[j - i - |m| + e..j - i - |m| + e + len]
  {
    var u := t[..i] + m + t[e..];
    forall w | j <= w < j + len ensures u[w] == t[w - i - |m| + e] {}
  }

  /** A slice of a text without `pat` is without `pat`. */
  lemma SliceExcludes(s: string, lo: nat, hi: nat, pat: string)
    requires pat != [] && lo <= hi <= |s| && !Includes(s, pat)
    ensures !Includes(s[lo..hi], pat)
  {
    var u := s[lo..hi];
    forall j: nat ensures !OccursAt(u, pat, j) {
      if j + |pat| <= |u| {
        forall w | j <= w < j + |pat| ensures u[w] == s[lo + w] {
        }
        assert u[j..j + |pat|] == s[lo + j..lo + j + |pat|];
        assert !OccursAt(s, pat, lo + j);
      }
    }
  }

  /** Trimming a text without `pat` leaves it without `pat`. */
  lemma TrimExcludes(content: string, pat: string)
    requires pat != [] && !Includes(content, pat)
    ensures !Includes(Trim(content), pat)
  {
    var t := TrimStart(content);
    TrimStartShape(content);
    TrimEndShape(t);
    SliceExcludes(content, |content| - |t|, |content|, pat);
    assert content[|content| - |t|..|content|] == t;
    SliceExcludes(t, 0, |Trim(content)|, pat);
    assert t[0..|Trim(content)|] == Trim(content);
  }

  /** The placeholder is made of capital letters and `_`. */
  lemma PlaceholderLetters()
    ensures forall c :: c in Placeholder ==> 'A' <= c <= 'Z' || c == '_'
  {
    forall c | c in Placeholder ensures 'A' <= c <= 'Z' || c == '_' {
      var x :| 0 <= x < |Placeholder| && Placeholder[x] == c;
    }
  }

  /** No capital letter and no `_` in `m`. */
  predicate NoCapitals(m: string) {
    forall x :: 0 <= x < |m| ==> !('A' <= m[x] <= 'Z') && m[x] != '_'
  }

  /** A text without capitals or `_` shares no character with the placeholder. */
  lemma CapitalsOutside(m: string)
    requires NoCapitals(m)
    ensures Outside(m, Placeholder)
  {
    PlaceholderLetters();
  }

  lemma NoCapitalsJoin(a: string, b: string)
    requires NoCapitals(a) && NoCapitals(b)
    ensures NoCapitals(a + b)
  {
    forall x | 0 <= x < |a + b| ensures !('A' <= (a + b)[x] <= 'Z') && (a + b)[x] != '_' {
      if x < |a| {
        assert (a + b)[x] == a[x];
      } else {
        assert (a + b)[x] == b[x - |a|];
      }
    }
  }

  /** Decimal digits are no capitals. */
  lemma DecimalNoCapitals(v: nat)
    ensures NoCapitals(Decimal(v))
  {
  }

  /** The page number, the label and the date hold no capitals and no `_`. */
  lemma RewriteNoCapitals(k: nat, n: nat, year: nat, month: nat)
    ensures NoCapitals(PageNumber(k, n)) && NoCapitals(SlideLabel) && NoCapitals(CurrentDate(year, month))
  {
    DecimalNoCapitals(k);
    DecimalNoCapitals(n);
    NoCapitalsJoin(Decimal(k), "/");
    NoCapitalsJoin(Decimal(k) + "/", Decimal(n));
    DecimalNoCapitals(year);
    DecimalNoCapitals(month);
    NoCapitalsJoin(Decimal(year), "年");
    NoCapitalsJoin(Decimal(year) + "年", Decimal(month));
    NoCapitalsJoin(Decimal(year) + "年" + Decimal(month), "月");
  }

  /** Digits, `/`, `年`, `月` and the label's characters are foreign to the placeholder. */
  lemma PlaceholderForeign(k: nat, n: nat, year: nat, month: nat)
    ensures Outside(PageNumber(k, n), Placeholder) && Outside(SlideLabel + PageNumber(k, n), Placeholder)
    ensures Outside(CurrentDate(year, month) + SlideLabel + PageNumber(k, n), Placeholder)
  {
    var pn, d := PageNumber(k, n), CurrentDate(year, month);
    RewriteNoCapitals(k, n, year, month);
    NoCapitalsJoin(SlideLabel, pn);
    NoCapitalsJoin(d, SlideLabel + pn);
    assert d + (SlideLabel + pn) == d + SlideLabel + pn;
    CapitalsOutside(pn);
    CapitalsOutside(SlideLabel + pn);
    CapitalsOutside(d + SlideLabel + pn);
  }

  /** The rewritten footer text never holds the placeholder. */
  lemma PlaceholderGone(content: string, k: nat, n: nat, year: nat, month: nat)
    ensures !Includes(RewriteFooter(content, k, n, CurrentDate(year, month)), Placeholder)
  {
    PlaceholderForeign(k, n, year, month);
    if Includes(content, Placeholder) {
      GoneFresh(CurrentDate(year, month) + SlideLabel + PageNumber(k, n));
    } else {
      TrimExcludes(content, Placeholder);
      PageNumberChars(k, n);
      GoneRelabel(Trim(content), PageNumber(k, n));
    }
  }

  /** A text of characters foreign to the placeholder does not hold it. */
  lemma GoneFresh(w: string)
    requires w != [] && Outside(w, Placeholder)
    ensures !Includes(w, Placeholder)
  {
    SpliceExcludes([], 0, 0, w, Placeholder);
    assert [][..0] + w + [][0..] == w;
  }

  /** The page-number and year-and-month branches do not form the placeholder. */
  lemma GoneRelabel(t: string, pn: string)
    requires !Includes(t, Placeholder) && pn != []
    requires Outside(pn, Placeholder) && Outside(SlideLabel + pn, Placeholder)
    ensures var r := match PageScan(t, 0)
              case Some((i, e)) => t[..i] + pn + t[e..]
              case None =>
                match YearMonthScan(t, 0)
                case Some((_, e)) => t[..e] + SlideLabel + pn + t[e..]
                case None => t;
            !Includes(r, Placeholder)
  {
    match PageScan(t, 0)
    case Some((i, e)) =>
      SpliceExcludes(t, i, e, pn, Placeholder);
    case None =>
      match YearMonthScan(t, 0)
      case Some((_, e)) =>
        SpliceExcludes(t, e, e, SlideLabel + pn, Placeholder);
        assert t[..e] + (SlideLabel + pn) + t[e..] == t[..e] + SlideLabel + pn + t[e..];
      case None =>
  }

  /** A trimmed text without the placeholder whose first page number reads `k/N` is rewritten to itself. */
  lemma RereadPage(t: string, k: nat, n: nat, date: string)
    requires !Includes(t, Placeholder) && Trim(t) == t && FirstPageReads(t, PageNumber(k, n))
    ensures RewriteFooter(t, k, n, date) == t
  {
    var (i, e) := PageScan(t, 0).value;
    PageBack(t, i, e, PageNumber(k, n));
  }

  /** Putting back the text a slice holds gives the text. */
  lemma PageBack(t: string, i: nat, e: nat, pn: string)
    requires i <= e <= |t| && t[i..e] == pn
    ensures t[..i] + pn + t[e..] == t
  {
    assert t[..i] + t[i..e] + t[e..] == t;
  }

  /** A footer text the rewrite only trims is, once trimmed, rewritten to itself. */
  lemma RereadPlain(content: string, k: nat, n: nat, date: string)
    requires !Labelled(content)
    ensures RewriteFooter(Trim(content), k, n, date) == Trim(content)
  {
    var t := Trim(content);
    TrimShape(content);
    TrimTrimmed(t);
    TrimExcludes(content, Placeholder);
  }

  /**
   * Rewriting a footer text without `<` a second time, with the same number,
   * count and date, gives the same text, unless its year and month run into
   * a digit (then the first rewrite added a page number the second does not
   * find first, and adds another).
   */
  lemma RewriteStable(content: string, k: nat, n: nat, year: nat, month: nat)
    requires Tagless(content) && !GluedDate(content)
    ensures var d := CurrentDate(year, month);
            var t := RewriteFooter(content, k, n, d);
            RewriteFooter(t, k, n, d) == t
  {
    var d := CurrentDate(year, month);
    var t := RewriteFooter(content, k, n, d);
    CleanRewrite(content, k, n, year, month);
    TrimTrimmed(t);
    PlaceholderGone(content, k, n, year, month);
    RewriteLabels(content, k, n, year, month);
    if Labelled(content) {
      RereadPage(t, k, n, d);
    } else {
      RereadPlain(content, k, n, d);
    }
  }

  /**
   * The replace of `b` from `d + p` on is the replace of the rest `b[d..]`
   * from `p` on: the search resumes at `lastIndex` and only looks forward.
   */
  lemma {:induction false} ElementsShift(b: string, open: string, d: nat, p: nat, k: nat, n: nat, date: string, P: nat)
    requires P == d + p && P <= |b|
    ensures RewriteElements(b, open, P, k, n, date) == RewriteElements(b[d..], open, p, k, n, date)
    decreases |b| - P
  {
    match ElementScan(b[d..], open, p)
    case None =>
      ShiftNone(b, open, d, p, k, n, date, P);
    case Some(Element(i, c)) =>
      var q := c + CloseWidth;
      var Q := d + q;
      MatchBounds(b[d..], open, p, i, c);
      ElementsShift(b, open, d, q, k + 1, n, date, Q);
      ShiftStep(b, open, d, p, k, n, date, i, c, q, P, Q);
  }

  /** `ElementsShift` with no element left. */
  lemma ShiftNone(b: string, open: string, d: nat, p: nat, k: nat, n: nat, date: string, P: nat)
    requires P == d + p && P <= |b| && ElementScan(b[d..], open, p) == None
    ensures RewriteElements(b, open, P, k, n, date) == RewriteElements(b[d..], open, p, k, n, date)
  {
    ScanShiftNone(b, open, d, p);
    ElementsNone(b, open, P, k, n, date);
    ElementsNone(b[d..], open, p, k, n, date);
    assert b[P..] == b[d..][p..];
  }

  /** `ElementsShift` at an element, given it for the rest. */
  lemma ShiftStep(b: string, open: string, d: nat, p: nat, k: nat, n: nat, date: string, i: nat, c: nat, q: nat, P: nat, Q: nat)
    requires P == d + p && Q == d + q
    requires P <= |b| && ElementScan(b[d..], open, p) == Some(Element(i, c)) && q == c + CloseWidth
    requires Q <= |b|
    requires RewriteElements(b, open, Q, k + 1, n, date) == RewriteElements(b[d..], open, q, k + 1, n, date)
    ensures RewriteElements(b, open, P, k, n, date) == RewriteElements(b[d..], open, p, k, n, date)
  {
    var I, C := d + i, d + c;
    ShiftedMatch(b, open, d, p, i, c, P, I, C);
    StepMoved(b, open, d, p, k, n, date, i, c, q, P, I, C, Q);
    ElementsStep(b[d..], open, p, k, n, date, i, c, q);
  }

  /**
   * The replace of `b` from `P` at an element of the rest `b[d..]` at `i`,
   * moved by `d` to `I`, stated with the rest's pieces.
   */
  lemma StepMoved(b: string, open: string, d: nat, p: nat, k: nat, n: nat, date: string, i: nat, c: nat, q: nat,
                  P: nat, I: nat, C: nat, Q: nat)
    requires P == d + p && I == d + i && C == d + c && Q == d + q
    requires p <= i && i + |open| <= c && q == c + CloseWidth && Q <= |b|
    requires ElementScan(b, open, P) == Some(Element(I, C))
    ensures RewriteElements(b, open, P, k, n, date)
            == b[d..][p..i] + FooterBlock(RewriteFooter(ElementGroup(b[d..], open, i, c), k, n, date))
               + RewriteElements(b, open, Q, k + 1, n, date)
  {
    ElementsStep(b, open, P, k, n, date, I, C, Q);
    Regroup(b, open, d, p, i, c, k, n, date, P, I, C, RewriteElements(b, open, P, k, n, date),
            RewriteElements(b, open, Q, k + 1, n, date));
  }

  /** A join of the pieces of an element of `b` at `I == d + i` is the join of the same pieces of the rest `b[d..]`. */
  lemma Regroup(b: string, open: string, d: nat, p: nat, i: nat, c: nat, k: nat, n: nat, date: string,
                P: nat, I: nat, C: nat, x: string, r: string)
    requires P == d + p && I == d + i && C == d + c
    requires p <= i && i + |open| <= c && C <= |b|
    requires x == b[P..I] + FooterBlock(RewriteFooter(ElementGroup(b, open, I, C), k, n, date)) + r
    ensures x == b[d..][p..i] + FooterBlock(RewriteFooter(ElementGroup(b[d..], open, i, c), k, n, date)) + r
  {
    GroupShift(b, open, d, p, i, c, P, I, C);
    var m := FooterBlock(RewriteFooter(ElementGroup(b[d..], open, i, c), k, n, date));
    JoinEqual(b[P..I], b[d..][p..i], m, m, r, r);
  }

  /** An element of the rest `b[d..]` is, moved by `d`, an element of `b`. */
  lemma ShiftedMatch(b: string, open: string, d: nat, p: nat, i: nat, c: nat, P: nat, I: nat, C: nat)
    requires P == d + p && I == d + i && C == d + c
    requires d + p <= |b| && ElementScan(b[d..], open, p) == Some(Element(i, c))
    ensures p <= i && i + |open| <= c && C + CloseWidth <= |b|
    ensures ElementScan(b, open, P) == Some(Element(I, C))
  {
    MatchBounds(b[d..], open, p, i, c);
    ShiftedScan(b, open, d, p, i, c, P, I, C);
  }

  /** `ScanShiftSome` with the moved positions named. */
  lemma ShiftedScan(b: string, open: string, d: nat, p: nat, i: nat, c: nat, P: nat, I: nat, C: nat)
    requires P == d + p && I == d + i && C == d + c
    requires d + p <= |b| && ElementScan(b[d..], open, p) == Some(Element(i, c))
    ensures ElementScan(b, open, P) == Some(Element(I, C))
  {
    ShiftedAttempts(b, open, d, p, i, c);
    ScanFindsAt(b, open, P, I, C);
  }

  /** Equal parts give equal joins. */
  lemma JoinEqual(a: string, a': string, m: string, m': string, r: string, r': string)
    requires a == a' && m == m' && r == r'
    ensures a + m + r == a' + m' + r'
  {
  }

  /** The text before and the group of an element of the rest `b[d..]` are those of the element moved by `d`. */
  lemma GroupShift(b: string, open: string, d: nat, p: nat, i: nat, c: nat, P: nat, I: nat, C: nat)
    requires P == d + p && I == d + i && C == d + c
    requires d <= |b| && p <= i && i + |open| <= c <= |b| - d
    ensures b[P..I] == b[d..][p..i]
    ensures ElementGroup(b, open, I, C) == ElementGroup(b[d..], open, i, c)
  {
    assert b[I + |open|..C] == b[d..][i + |open|..c];
  }

  /**
   * Renumbering the output of a renumbering from `p`, with the same first
   * number, count and date, gives it back, provided no footer text from `p`
   * on has its year and month run into a digit.
   */
  lemma {:induction false} RenumberedStable(b: string, p: nat, k: nat, n: nat, year: nat, month: nat)
    requires p <= |b|
    requires forall j :: 0 <= j < |FooterTexts(b, p)| ==> !GluedDate(FooterTexts(b, p)[j])
    ensures var d := CurrentDate(year, month);
            var s := Renumbered(b, p, k, n, d);
            Renumbered(s, 0, k, n, d) == s
    decreases |b| - p
  {
    var d := CurrentDate(year, month);
    match ElementScan(b, FooterOpen, p)
    case None =>
      ElementsNone(b, FooterOpen, p, k, n, d);
      ResumeInRest(b, FooterOpen, p);
      ElementsNone(b[p..], FooterOpen, 0, k, n, d);
    case Some(Element(i, c)) =>
      var q := c + CloseWidth;
      TextsAt(b, p, i, c, q);
      assert FooterTexts(b, p)[0] == ElementGroup(b, FooterOpen, i, c);
      assert forall j :: 0 <= j < |FooterTexts(b, q)| ==> FooterTexts(b, q)[j] == FooterTexts(b, p)[j + 1];
      RenumberedStable(b, q, k + 1, n, year, month);
      StableStep(b, p, i, c, k, n, year, month);
  }

  /** One step of `RenumberedStable`: the first footer reads back, the rest is stable already. */
  lemma StableStep(b: string, p: nat, i: nat, c: nat, k: nat, n: nat, year: nat, month: nat)
    requires p <= |b| && ElementScan(b, FooterOpen, p) == Some(Element(i, c))
    requires !GluedDate(ElementGroup(b, FooterOpen, i, c))
    requires var d := CurrentDate(year, month);
             var rest := Renumbered(b, c + CloseWidth, k + 1, n, d);
             Renumbered(rest, 0, k + 1, n, d) == rest
    ensures var d := CurrentDate(year, month);
            var s := Renumbered(b, p, k, n, d);
            Renumbered(s, 0, k, n, d) == s
  {
    var g := ElementGroup(b, FooterOpen, i, c);
    MatchBounds(b, FooterOpen, p, i, c);
    GroupTagless(b, FooterOpen, i, c);
    CleanRewrite(g, k, n, year, month);
    RewriteStable(g, k, n, year, month);
    StableJoin(b, p, i, c, k, n, CurrentDate(year, month));
  }

  /**
   * One step of `RenumberedStable` for any date: when the first footer's
   * rewritten text is clean and rewritten to itself, and the rest's output
   * is stable, the whole output is stable.
   */
  lemma StableJoin(b: string, p: nat, i: nat, c: nat, k: nat, n: nat, d: string)
    requires p <= |b| && ElementScan(b, FooterOpen, p) == Some(Element(i, c))
    requires var text := RewriteFooter(ElementGroup(b, FooterOpen, i, c), k, n, d);
             Tagless(text) && Trimmed(text) && RewriteFooter(text, k, n, d) == text
    requires var rest := Renumbered(b, c + CloseWidth, k + 1, n, d);
             Renumbered(rest, 0, k + 1, n, d) == rest
    ensures var s := Renumbered(b, p, k, n, d);
            Renumbered(s, 0, k, n, d) == s
  {
    var text := RewriteFooter(ElementGroup(b, FooterOpen, i, c), k, n, d);
    var s := Renumbered(b, p, k, n, d);
    var rest := Renumbered(b, c + CloseWidth, k + 1, n, d);
    var e := i - p + |FooterOpen| + |FooterIndent + text + FooterPad|;
    FirstBlock(b, p, i, c, k, n, d, text, s, rest, e);
    ReadBack(s, FooterOpen, b[p..i], text, rest, i - p, e, k, n, d);
  }

  /**
   * The output from `p` on is the text before the first footer, the block
   * around its rewritten text and the rest's output, and that block is the
   * output's first footer.
   */
  lemma FirstBlock(b: string, p: nat, i: nat, c: nat, k: nat, n: nat, d: string, text: string, s: string, rest: string, e: nat)
    requires p <= |b| && ElementScan(b, FooterOpen, p) == Some(Element(i, c))
    requires text == RewriteFooter(ElementGroup(b, FooterOpen, i, c), k, n, d) && Tagless(text) && Trimmed(text)
    requires s == Renumbered(b, p, k, n, d) && c + CloseWidth <= |b| && rest == Renumbered(b, c + CloseWidth, k + 1, n, d)
    requires e == i - p + |FooterOpen| + |FooterIndent + text + FooterPad|
    ensures p <= i <= |b| && i - p == |b[p..i]| && s == b[p..i] + FooterBlock(text) + rest
    ensures ElementScan(s, FooterOpen, 0) == Some(Element(i - p, e)) && ElementGroup(s, FooterOpen, i - p, e) == text
    ensures e + CloseWidth == i - p + |FooterBlock(text)|
  {
    MatchBounds(b, FooterOpen, p, i, c);
    RenumberedStep(b, p, k, n, d, i, c, c + CloseWidth);
    BlockFound(b, p, i, c, text, rest, s, e);
  }

  /**
   * The second pass over a text `s` that holds `a`, then a block `blk`,
   * then `rest`, where the first element is that block and rewriting its
   * group gives the block back: when `rest` is rewritten to itself, `s` is
   * rewritten to `a + blk + rest`.
   */
  lemma ReadBack(s: string, open: string, a: string, text: string, rest: string, j: nat, e: nat, k: nat, n: nat, d: string)
    requires j == |a| && s == a + FooterBlock(text) + rest
    requires ElementScan(s, open, 0) == Some(Element(j, e)) && e + CloseWidth == j + |FooterBlock(text)|
    requires ElementGroup(s, open, j, e) == text && RewriteFooter(text, k, n, d) == text
    requires RewriteElements(rest, open, 0, k + 1, n, d) == rest
    ensures RewriteElements(s, open, 0, k, n, d) == s
  {
    var blk := FooterBlock(text);
    SplitAt(s, a, blk, rest);
    ReadBackSplit(s, open, a, blk, rest, j, e, k, n, d);
  }

  /** `ReadBack` with the text's pieces given by slices. */
  lemma ReadBackSplit(s: string, open: string, a: string, blk: string, rest: string, j: nat, e: nat, k: nat, n: nat, d: string)
    requires j == |a| && j + |blk| <= |s| && s[0..j] == a && s[j + |blk|..] == rest
    requires ElementScan(s, open, 0) == Some(Element(j, e)) && e + CloseWidth == j + |blk|
    requires FooterBlock(RewriteFooter(ElementGroup(s, open, j, e), k, n, d)) == blk
    requires RewriteElements(rest, open, 0, k + 1, n, d) == rest
    ensures RewriteElements(s, open, 0, k, n, d) == a + blk + rest
  {
    var q := j + |blk|;
    ElementsStep(s, open, 0, k, n, d, j, e, q);
    TailStable(s, open, q, rest, k + 1, n, d);
    var m := FooterBlock(RewriteFooter(ElementGroup(s, open, j, e), k, n, d));
    JoinEqual(s[0..j], a, m, blk, RewriteElements(s, open, q, k + 1, n, d), rest);
  }

  /** The rewriting of `s` from `q` on, where `s[q..]` is rewritten to itself. */
  lemma TailStable(s: string, open: string, q: nat, rest: string, k: nat, n: nat, d: string)
    requires q <= |s| && s[q..] == rest && RewriteElements(rest, open, 0, k, n, d) == rest
    ensures RewriteElements(s, open, q, k, n, d) == rest
  {
    ElementsRest(s, open, q, k, n, d);
    RestStable(s[q..], rest, open, k, n, d);
  }

  /** A text equal to one rewritten to itself is rewritten to it. */
  lemma RestStable(x: string, y: string, open: string, k: nat, n: nat, date: string)
    requires x == y && RewriteElements(y, open, 0, k, n, date) == y
    ensures RewriteElements(x, open, 0, k, n, date) == y
  {
  }

  /** Rewriting from `q` on is rewriting the rest `b[q..]` from its start. */
  lemma ElementsRest(b: string, open: string, q: nat, k: nat, n: nat, date: string)
    requires q <= |b|
    ensures RewriteElements(b, open, q, k, n, date) == RewriteElements(b[q..], open, 0, k, n, date)
  {
    ElementsShift(b, open, q, 0, k, n, date, q);
  }

  /** The pieces of `a + m + r`. */
  lemma SplitAt(s: string, a: string, m: string, r: string)
    requires s == a + m + r
    ensures s[0..|a|] == a && s[|a + m|..] == r
  {
  }

  /**
   * Running the footer renumbering of `updatePageNumbers` on its own output,
   * with the same slide count and date, changes nothing, provided no footer's
   * year and month runs into a digit.
   */
  lemma RenumberedIdempotent(b: string, n: nat, year: nat, month: nat)
    requires forall j :: 0 <= j < |FooterTexts(b, 0)| ==> !GluedDate(FooterTexts(b, 0)[j])
    ensures var d := CurrentDate(year, month);
            Renumbered(Renumbered(b, 0, 1, n, d), 0, 1, n, d) == Renumbered(b, 0, 1, n, d)
  {
    RenumberedStable(b, 0, 1, n, year, month);
  }
}
