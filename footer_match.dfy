/**
 * The footer regular expression of `updatePageNumbers`,
 * `/<div class="footer">\s*([^<]*?)\s*<\/div>/g`, stated for any opening
 * tag `open` that starts with the only `<` it holds: a match at `i` is the
 * opening tag followed by text without `<` and then `</div>`, so the first
 * `<` after the opening tag decides it. Both `\s*` around the lazy group
 * take all the white space they can, so the group is the text between the
 * tags without its surrounding white space, which is what `trim` removes.
 */
module FooterMatch {
  import opened Text
  import opened SpanFinder

  /** The length of `</div>`. */
  const CloseWidth: nat := 6

  /** A match: where it starts, and where its `</div>` starts. */
  datatype Element = Element(start: nat, close: nat)

  /** No `<` in `b[lo..hi)`. */
  predicate NoTagIn(b: string, lo: nat, hi: nat) {
    forall q :: lo <= q < hi && q < |b| ==> b[q] != '<'
  }

  /** An opening tag: `<`, no other `<`, and not the start of a closing tag. */
  predicate OpenTag(open: string) {
    |open| >= 2 && open[0] == '<' && open[1] != '/' && forall x :: 0 < x < |open| ==> open[x] != '<'
  }

  /** The first `<` at or after `j`, or -1. */
  function FirstTag(b: string, j: nat): (r: int)
    decreases |b| - j
    ensures r == -1 ==> NoTagIn(b, j, |b|)
    ensures r != -1 ==> j <= r < |b| && b[r] == '<' && NoTagIn(b, j, r)
  {
    if j >= |b| then -1 else if b[j] == '<' then j else FirstTag(b, j + 1)
  }

  /** A match at `i` whose `</div>` starts at `c`. */
  predicate ElementAt(b: string, open: string, i: nat, c: nat) {
    OccursAt(b, open, i) && i + |open| <= c && CloseAt(b, c) && NoTagIn(b, i + |open|, c)
  }

  /** The expression tried at offset `i`: where the closing `</div>` starts, if it matches there. */
  function ElementAttempt(b: string, open: string, i: nat): (r: Option<nat>)
    ensures r.Some? ==> i + |open| <= r.value && r.value + CloseWidth <= |b|
  {
    if OccursAt(b, open, i) then
      var c := FirstTag(b, i + |open|);
      if c != -1 && CloseAt(b, c) then Some(c) else None
    else None
  }

  /** The attempt at `i` succeeds exactly when there is a match at `i`, and then names its `</div>`. */
  lemma AttemptMeaning(b: string, open: string, i: nat)
    ensures ElementAttempt(b, open, i).Some? ==> ElementAt(b, open, i, ElementAttempt(b, open, i).value)
    ensures ElementAttempt(b, open, i).None? ==> forall c :: !ElementAt(b, open, i, c)
  {
  }

  /** The leftmost match at or after `p` (where the global expression's search resumes). */
  function ElementScan(b: string, open: string, p: nat): (r: Option<Element>)
    requires p <= |b|
    decreases |b| - p
    ensures r.Some? ==> p <= r.value.start && r.value.start + |open| <= r.value.close
                        && r.value.close + CloseWidth <= |b|
  {
    if p == |b| then None
    else match ElementAttempt(b, open, p)
      case Some(c) => Some(Element(p, c))
      case None => ElementScan(b, open, p + 1)
  }

  /** The scan finds the leftmost offset from `p` on at which the expression matches, or reports there is none. */
  lemma {:induction false} ScanMeaning(b: string, open: string, p: nat)
    requires p <= |b|
    ensures var r := ElementScan(b, open, p);
            (r.None? ==> forall q :: p <= q <= |b| ==> ElementAttempt(b, open, q).None?)
            && (r.Some? ==> p <= r.value.start && ElementAttempt(b, open, r.value.start) == Some(r.value.close)
                            && forall q :: p <= q < r.value.start ==> ElementAttempt(b, open, q).None?)
    decreases |b| - p
  {
    if p < |b| && ElementAttempt(b, open, p).None? {
      ScanMeaning(b, open, p + 1);
    }
  }

  /** A match with none before it, from `p` on, is the leftmost one. */
  lemma {:induction false} ElementScanAt(b: string, open: string, p: nat, i: nat)
    requires p <= i <= |b| && ElementAttempt(b, open, i).Some?
    requires forall q :: p <= q < i ==> ElementAttempt(b, open, q).None?
    ensures ElementScan(b, open, p) == Some(Element(i, ElementAttempt(b, open, i).value))
    decreases i - p
  {
    if p < i {
      ElementScanAt(b, open, p + 1, i);
    }
  }

  /** No match at or after `p` means the scan from `p` finds none. */
  lemma {:induction false} ElementScanNone(b: string, open: string, p: nat)
    requires p <= |b| && forall q :: p <= q <= |b| ==> ElementAttempt(b, open, q).None?
    ensures ElementScan(b, open, p).None?
    decreases |b| - p
  {
    if p < |b| {
      ElementScanNone(b, open, p + 1);
    }
  }

  /** The regular-expression group of the match at `i`. */
  function ElementGroup(b: string, open: string, i: nat, c: nat): string
    requires i + |open| <= c <= |b|
  {
    Trim(b[i + |open|..c])
  }

  // ---------------------------------------------------------------------
  // Matching only looks forward

  /** The first `<` from `d + j` is the first `<` of the rest `b[d..]` from `j`, moved. */
  lemma {:induction false} FirstTagShift(b: string, d: nat, j: nat)
    requires d <= |b|
    ensures FirstTag(b, d + j) == (if FirstTag(b[d..], j) == -1 then -1 else d + FirstTag(b[d..], j))
    decreases |b| - d - j
  {
    if d + j < |b| && b[d + j] != '<' {
      FirstTagShift(b, d, j + 1);
    }
  }

  /** A result moved by `d`. */
  function Shifted(f: Option<nat>, d: nat): Option<nat> {
    if f.None? then None else Some(d + f.value)
  }

  /** An attempt at `d + q` is the attempt at `q` in the rest `b[d..]`, moved. */
  lemma AttemptShift(b: string, open: string, d: nat, q: nat)
    requires d <= |b|
    ensures ElementAttempt(b, open, d + q) == Shifted(ElementAttempt(b[d..], open, q), d)
  {
    var y := b[d..];
    if d + q + |open| <= |b| {
      assert b[d + q..d + q + |open|] == y[q..q + |open|];
    }
    FirstTagShift(b, d, q + |open|);
    var c := FirstTag(y, q + |open|);
    if c != -1 {
      assert CloseAt(b, d + c) <==> CloseAt(y, c);
    }
  }

  /** A match moved by `d`. */
  function ShiftedElement(f: Option<Element>, d: nat): Option<Element> {
    if f.None? then None else Some(Element(d + f.value.start, d + f.value.close))
  }

  /** No match in the rest `b[d..]` over `[lo, hi)`: none in `b` over that stretch moved. */
  lemma NoneShift(b: string, open: string, d: nat, lo: nat, hi: nat)
    requires d <= |b|
    requires forall q :: lo <= q < hi ==> ElementAttempt(b[d..], open, q).None?
    ensures forall q :: d + lo <= q < d + hi ==> ElementAttempt(b, open, q).None?
  {
    forall q | d + lo <= q < d + hi ensures ElementAttempt(b, open, q).None? {
      AttemptShift(b, open, d, q - d);
    }
  }

  /** No match in the rest `b[d..]` from `p`: none in `b` from `d + p`. */
  lemma ScanShiftNone(b: string, open: string, d: nat, p: nat)
    requires d + p <= |b| && ElementScan(b[d..], open, p).None?
    ensures ElementScan(b, open, d + p).None?
  {
    ScanMeaning(b[d..], open, p);
    NoneShift(b, open, d, p, |b| - d + 1);
    ElementScanNone(b, open, d + p);
  }

  /** The leftmost match of the rest `b[d..]` from `p`, moved, is the leftmost match of `b` from `d + p`. */
  lemma ScanShiftSome(b: string, open: string, d: nat, p: nat, i: nat, c: nat)
    requires d + p <= |b| && ElementScan(b[d..], open, p) == Some(Element(i, c))
    ensures ElementScan(b, open, d + p) == Some(Element(d + i, d + c))
  {
    ShiftedAttempts(b, open, d, p, i, c);
    ScanFindsAt(b, open, d + p, d + i, d + c);
  }

  /** The first attempt that succeeds from `p` on is the scan's match. */
  lemma ScanFindsAt(b: string, open: string, p: nat, i: nat, c: nat)
    requires p <= i <= |b| && ElementAttempt(b, open, i) == Some(c)
    requires forall q :: p <= q < i ==> ElementAttempt(b, open, q).None?
    ensures ElementScan(b, open, p) == Some(Element(i, c))
  {
    ElementScanAt(b, open, p, i);
  }

  /** The attempts in `b` behind a leftmost match of the rest `b[d..]`. */
  lemma ShiftedAttempts(b: string, open: string, d: nat, p: nat, i: nat, c: nat)
    requires d + p <= |b| && ElementScan(b[d..], open, p) == Some(Element(i, c))
    ensures d + p <= d + i <= |b| && ElementAttempt(b, open, d + i) == Some(d + c)
    ensures forall q :: d + p <= q < d + i ==> ElementAttempt(b, open, q).None?
  {
    ScanMeaning(b[d..], open, p);
    NoneShift(b, open, d, p, i);
    AttemptShift(b, open, d, i);
  }

  /**
   * The global expression resumes its search at `lastIndex` in the whole
   * text; since a match only looks forward, that finds the first match of
   * the rest of the text, moved.
   */
  lemma ResumeInRest(b: string, open: string, p: nat)
    requires p <= |b|
    ensures ElementScan(b, open, p) == ShiftedElement(ElementScan(b[p..], open, 0), p)
  {
    match ElementScan(b[p..], open, 0)
    case None => ScanShiftNone(b, open, p, 0);
    case Some(Element(i, c)) => ScanShiftSome(b, open, p, 0, i, c);
  }

  // ---------------------------------------------------------------------
  // Replacing a match

  /** `u` and `v` agree on their first `e` characters. */
  predicate Agree(u: string, v: string, e: nat) {
    e <= |u| && e <= |v| && forall z :: 0 <= z < e ==> u[z] == v[z]
  }

  /** Two texts that agree past a `<` at `m` have the same first `<` from `j` on. */
  lemma {:induction false} FirstTagAgree(u: string, v: string, e: nat, j: nat, m: nat)
    requires Agree(u, v, e) && j <= m < e && u[m] == '<'
    ensures FirstTag(u, j) == FirstTag(v, j) && j <= FirstTag(u, j) <= m
    decreases m - j
  {
    if u[j] != '<' {
      FirstTagAgree(u, v, e, j + 1, m);
    }
  }

  /**
   * Two texts that agree up to the end of an opening tag at `m`: an attempt
   * before `m` comes out the same in both, because its first `<` is at `m` at
   * the latest and the `</div>` test there reads no further than the tag.
   */
  lemma AttemptsAgree(u: string, v: string, open: string, m: nat, q: nat)
    requires OpenTag(open) && CloseWidth <= |open|
    requires OccursAt(u, open, m) && Agree(u, v, m + |open|) && q < m
    ensures ElementAttempt(u, open, q) == ElementAttempt(v, open, q)
  {
    OccursAtChars(u, open, m);
    assert u[q..q + |open|] == v[q..q + |open|];
    if OccursAt(u, open, q) {
      if m < q + |open| {
        OccursAtOnlyFirst(u, open, q, '<', m);
      }
      FirstTagAgree(u, v, m + |open|, q + |open|, m);
    }
  }

  /** The first `<` from `j` is at `e` when there is none before it. */
  lemma {:induction false} FirstTagTo(b: string, j: nat, e: nat)
    requires j <= e < |b| && b[e] == '<' && NoTagIn(b, j, e)
    ensures FirstTag(b, j) == e
    decreases e - j
  {
    if j < e {
      FirstTagTo(b, j + 1, e);
    }
  }

  /**
   * A text `s` that keeps `b` up to its leftmost match at `i` and puts there
   * the opening tag, text without `<` and a `</div>` at `e`: the leftmost
   * match of `s` is at the same place and closes at `e`.
   */
  lemma ReplacedMatch(b: string, s: string, open: string, i: nat, e: nat)
    requires OpenTag(open) && CloseWidth <= |open|
    requires ElementScan(b, open, 0).Some? && ElementScan(b, open, 0).value.start == i
    requires Agree(b, s, i) && OccursAt(s, open, i) && i + |open| <= e
    requires NoTagIn(s, i + |open|, e) && CloseAt(s, e)
    ensures ElementScan(s, open, 0) == Some(Element(i, e))
  {
    ScanMeaning(b, open, 0);
    KeptPrefixUnmatched(b, s, open, i);
    FirstTagTo(s, i + |open|, e);
    assert ElementAttempt(s, open, i) == Some(e);
    ElementScanAt(s, open, 0, i);
  }

  /** Keeping `b` up to a match at `i` of an opening tag keeps every offset before `i` unmatched. */
  lemma KeptPrefixUnmatched(b: string, s: string, open: string, i: nat)
    requires OpenTag(open) && CloseWidth <= |open|
    requires forall q :: 0 <= q < i ==> ElementAttempt(b, open, q).None?
    requires OccursAt(b, open, i) && Agree(b, s, i) && OccursAt(s, open, i)
    ensures forall q :: 0 <= q < i ==> ElementAttempt(s, open, q).None?
  {
    OccursAtChars(b, open, i);
    OccursAtChars(s, open, i);
    assert Agree(b, s, i + |open|);
    forall q | 0 <= q < i ensures ElementAttempt(s, open, q).None? {
      AttemptsAgree(b, s, open, i, q);
    }
  }

  /** Where the parts of a replaced match sit in the new text. */
  lemma BlockLayout(pre: string, open: string, mid: string, rest: string)
    requires NoTagIn(mid, 0, |mid|)
    ensures var s := pre + (open + mid + DivClose) + rest;
            var e := |pre| + |open| + |mid|;
            Agree(pre, s, |pre|) && OccursAt(s, open, |pre|) && NoTagIn(s, |pre| + |open|, e) && CloseAt(s, e)
            && s[|pre| + |open|..e] == mid && s[e + CloseWidth..] == rest
  {
    var s := pre + (open + mid + DivClose) + rest;
    var e := |pre| + |open| + |mid|;
    assert s[|pre|..|pre| + |open|] == open;
    assert s[|pre| + |open|..e] == mid;
    assert s[e..e + CloseWidth] == DivClose;
    assert s[e + CloseWidth..] == rest;
    forall q | |pre| + |open| <= q < e ensures s[q] != '<' {
      assert s[q] == mid[q - |pre| - |open|];
    }
    OccursAtChars(s, DivClose, e);
    TokenOccurs(s, e);
  }

  /**
   * Replacing the leftmost match of `b`, at `i`, by a whole element around a
   * text `mid` without `<`: that element is the leftmost match of the new
   * text, and its group is `mid` trimmed.
   */
  lemma ReplacedFirst(b: string, s: string, open: string, i: nat, e: nat, mid: string, rest: string)
    requires OpenTag(open) && CloseWidth <= |open|
    requires ElementScan(b, open, 0).Some? && ElementScan(b, open, 0).value.start == i
    requires '<' !in mid
    requires s == b[..i] + (open + mid + DivClose) + rest && e == i + |open| + |mid|
    ensures ElementScan(s, open, 0) == Some(Element(i, e)) && ElementGroup(s, open, i, e) == Trim(mid)
  {
    BlockLayout(b[..i], open, mid, rest);
    assert Agree(b, s, i);
    ReplacedMatch(b, s, open, i, e);
    GroupOf(s, open, i, e, mid);
  }

  /** The group of a match whose text between the tags is `mid`. */
  lemma GroupOf(s: string, open: string, i: nat, e: nat, mid: string)
    requires i + |open| <= e <= |s| && s[i + |open|..e] == mid
    ensures ElementGroup(s, open, i, e) == Trim(mid)
  {
  }

  /** The leftmost match from `p` on is the leftmost match of the rest `b[p..]`, moved by `p`. */
  lemma FirstInRest(b: string, open: string, p: nat, i: nat, c: nat)
    requires p <= |b| && ElementScan(b, open, p) == Some(Element(i, c))
    ensures p <= i <= c && ElementScan(b[p..], open, 0) == Some(Element(i - p, c - p))
  {
    ResumeInRest(b, open, p);
  }

  /**
   * The leftmost match from `p` on replaced by an element whose text is
   * `text` between white space `l` and `r`, none of them holding `<`: in
   * the new text `s`, which starts at `p`, that element is the leftmost
   * match, and its group is `text` again when `text` does not start or end
   * with white space.
   */
  lemma ReplacedFound(b: string, open: string, p: nat, i: nat, c: nat, l: string, text: string, r: string, rest: string, s: string)
    requires OpenTag(open) && CloseWidth <= |open|
    requires p <= |b| && ElementScan(b, open, p) == Some(Element(i, c))
    requires AllSpace(l) && AllSpace(r) && '<' !in l && '<' !in r && '<' !in text
    requires text == [] || (!IsSpace(text[0]) && !IsSpace(text[|text| - 1]))
    requires s == b[p..i] + (open + (l + text + r) + DivClose) + rest
    ensures var e := i - p + |open| + |l + text + r|;
            ElementScan(s, open, 0) == Some(Element(i - p, e)) && ElementGroup(s, open, i - p, e) == text
  {
    var y := b[p..];
    FirstInRest(b, open, p, i, c);
    assert b[p..i] == y[..i - p];
    PaddedFirst(y, open, i - p, l, text, r, rest, s);
  }

  /** `ReplacedFound` for a match that is the leftmost one of `y` from its start. */
  lemma PaddedFirst(y: string, open: string, j: nat, l: string, text: string, r: string, rest: string, s: string)
    requires OpenTag(open) && CloseWidth <= |open|
    requires ElementScan(y, open, 0).Some? && ElementScan(y, open, 0).value.start == j
    requires AllSpace(l) && AllSpace(r) && '<' !in l && '<' !in r && '<' !in text
    requires text == [] || (!IsSpace(text[0]) && !IsSpace(text[|text| - 1]))
    requires j <= |y| && s == y[..j] + (open + (l + text + r) + DivClose) + rest
    ensures var e := j + |open| + |l + text + r|;
            ElementScan(s, open, 0) == Some(Element(j, e)) && ElementGroup(s, open, j, e) == text
  {
    var mid := l + text + r;
    assert '<' !in mid;
    ReplacedFirst(y, s, open, j, j + |open| + |mid|, mid, rest);
    TrimPadded(l, text, r);
  }

  /** A match's group holds no `<`. */
  lemma GroupTagless(b: string, open: string, i: nat, c: nat)
    requires i + |open| <= c <= |b| && NoTagIn(b, i + |open|, c)
    ensures '<' !in ElementGroup(b, open, i, c)
  {
    var w := b[i + |open|..c];
    forall q | 0 <= q < |w| ensures w[q] != '<' {
      assert w[q] == b[i + |open| + q];
    }
    TrimWithout(w, '<');
  }

  /** The leftmost match from `p` on lies inside the text, with no `<` before its `</div>`. */
  lemma MatchBounds(b: string, open: string, p: nat, i: nat, c: nat)
    requires p <= |b| && ElementScan(b, open, p) == Some(Element(i, c))
    ensures p <= i && i + |open| <= c && c + CloseWidth <= |b| && NoTagIn(b, i + |open|, c)
  {
    ScanMeaning(b, open, p);
    AttemptMeaning(b, open, i);
  }
}
