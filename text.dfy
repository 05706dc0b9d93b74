/**
 * The few JavaScript string built-ins the slide editor relies on, stated over
 * `string` (a sequence of UTF-16 code units in the editor, `seq<char>` here):
 * `indexOf`, `includes`, `trim` and the regular-expression class `\s`,
 * `replace` with a literal pattern, and the decimal rendering of a number.
 */
module Text {

  datatype Option<+T> = None | Some(value: T)

  /** `pat` occurs in `s` starting at offset `i`. */
  predicate OccursAt(s: string, pat: string, i: nat) {
    i + |pat| <= |s| && s[i..i + |pat|] == pat
  }

  /** Each of `pat`'s characters sits at its place in `s`. */
  lemma OccursAtChars(s: string, pat: string, i: nat)
    requires OccursAt(s, pat, i)
    ensures forall j :: 0 <= j < |pat| ==> s[i + j] == pat[j]
  {
    forall j | 0 <= j < |pat| ensures s[i + j] == pat[j] {
      assert s[i..i + |pat|][j] == s[i + j];
    }
  }

  /** An occurrence of a pattern whose only `c` is its first character. */
  lemma OccursAtOnlyFirst(s: string, pat: string, i: nat, c: char, j: nat)
    requires OccursAt(s, pat, i) && i < j < i + |pat|
    requires forall k :: 0 < k < |pat| ==> pat[k] != c
    ensures s[j] != c
  {
    OccursAtChars(s, pat, i);
    assert s[i + (j - i)] == pat[j - i];
  }

  /**
   * JavaScript's `s.indexOf(pat, from)` for a non-empty pattern: the first
   * offset at or after `from` where `pat` occurs, or -1.
   */
  function IndexOf(s: string, pat: string, from: nat): (r: int)
    requires pat != []
    decreases |s| - from
    ensures r == -1 || (from <= r && OccursAt(s, pat, r))
    ensures r == -1 ==> forall i :: from <= i ==> !OccursAt(s, pat, i)
    ensures r != -1 ==> forall i :: from <= i < r ==> !OccursAt(s, pat, i)
  {
    if from + |pat| > |s| then -1
    else if s[from..from + |pat|] == pat then from
    else IndexOf(s, pat, from + 1)
  }

  /** Searching past a prefix: the answer is the search in the rest, moved by the prefix's length. */
  lemma {:induction false} IndexOfShift(x: string, y: string, pat: string, f: nat)
    requires pat != []
    ensures IndexOf(x + y, pat, |x| + f) == (if IndexOf(y, pat, f) == -1 then -1 else |x| + IndexOf(y, pat, f))
    decreases |y| - f
  {
    if f + |pat| <= |y| {
      assert (x + y)[|x| + f..|x| + f + |pat|] == y[f..f + |pat|];
      if y[f..f + |pat|] != pat {
        IndexOfShift(x, y, pat, f + 1);
      }
    }
  }

  /** JavaScript's `s.includes(pat)`. */
  predicate Includes(s: string, pat: string)
    requires pat != []
  {
    IndexOf(s, pat, 0) != -1
  }

  /**
   * The code units JavaScript's `trim` strips and the regular-expression
   * class `\s` matches: WhiteSpace (tab, vertical tab, form feed, U+FEFF and
   * every space separator) and LineTerminator (LF, CR, U+2028, U+2029).
   */
  predicate IsSpace(c: char) {
    c == '\t' || c == '\n' || c == '\U{B}' || c == '\U{C}' || c == '\r' || c == ' '
    || c == '\U{A0}' || c == '\U{1680}' || ('\U{2000}' <= c <= '\U{200A}')
    || c == '\U{2028}' || c == '\U{2029}' || c == '\U{202F}' || c == '\U{205F}'
    || c == '\U{3000}' || c == '\U{FEFF}'
  }

  predicate AllSpace(s: string) {
    forall i :: 0 <= i < |s| ==> IsSpace(s[i])
  }

  /** `s` without its leading white space. */
  function TrimStart(s: string): (r: string)
    ensures |r| <= |s|
  {
    if s != [] && IsSpace(s[0]) then TrimStart(s[1..]) else s
  }

  /**
   * What `TrimStart` removes is a white-space prefix, and what is left starts
   * with something else.  Stated as a lemma so that proofs about text around
   * a trimmed string do not pay for these facts where they are not needed.
   */
  lemma {:induction false} TrimStartShape(s: string)
    ensures var r := TrimStart(s);
      r == s[|s| - |r|..] && AllSpace(s[..|s| - |r|]) && (r == [] || !IsSpace(r[0]))
    decreases |s|
  {
    if s != [] && IsSpace(s[0]) {
      TrimStartShape(s[1..]);
      var r := TrimStart(s[1..]);
      assert s[1..][..|s| - 1 - |r|] == s[1..|s| - |r|];
    }
  }

  /** `s` without its trailing white space. */
  function TrimEnd(s: string): (r: string)
    ensures |r| <= |s|
  {
    if s != [] && IsSpace(s[|s| - 1]) then TrimEnd(s[..|s| - 1]) else s
  }

  /** What `TrimEnd` removes is a white-space suffix, and what is left ends with something else. */
  lemma {:induction false} TrimEndShape(s: string)
    ensures var r := TrimEnd(s);
      r == s[..|r|] && AllSpace(s[|r|..]) && (r == [] || !IsSpace(r[|r| - 1]))
    decreases |s|
  {
    if s != [] && IsSpace(s[|s| - 1]) {
      TrimEndShape(s[..|s| - 1]);
      var r := TrimEnd(s[..|s| - 1]);
      assert s[..|s| - 1][|r|..] == s[|r|..|s| - 1];
    }
  }

  /** JavaScript's `s.trim()`: the middle of `s` between its leading and trailing white space. */
  function Trim(s: string): (r: string)
    ensures |r| <= |s|
  {
    TrimEnd(TrimStart(s))
  }

  /** `trim` gives a slice of `s` with only white space around it, and neither end of it is white space. */
  lemma TrimShape(s: string)
    ensures var r := Trim(s);
      (r == [] || (!IsSpace(r[0]) && !IsSpace(r[|r| - 1])))
      && exists i :: 0 <= i <= |s| - |r| && r == s[i..i + |r|]
                     && AllSpace(s[..i]) && AllSpace(s[i + |r|..])
  {
    var t := TrimStart(s);
    TrimStartShape(s);
    var r := TrimEnd(t);
    TrimEndShape(t);
    var i := |s| - |t|;
    assert r == s[i..i + |r|] by {
      assert t == s[i..];
    }
    assert AllSpace(s[i + |r|..]) by {
      assert s[i + |r|..] == t[|r|..];
    }
    if r != [] {
      assert r[0] == t[0];
    }
  }

  /** A string that neither starts nor ends with white space is its own trim. */
  lemma TrimTrimmed(s: string)
    requires s == [] || (!IsSpace(s[0]) && !IsSpace(s[|s| - 1]))
    ensures Trim(s) == s
  {
  }

  /** Leading white space before a text that starts with something else is stripped exactly. */
  lemma {:induction false} TrimStartPadded(l: string, s: string)
    requires AllSpace(l) && (s == [] || !IsSpace(s[0]))
    ensures TrimStart(l + s) == s
    decreases |l|
  {
    if l == [] {
      assert l + s == s;
    } else {
      assert (l + s)[1..] == l[1..] + s;
      TrimStartPadded(l[1..], s);
    }
  }

  /** Trailing white space after a text that ends with something else is stripped exactly. */
  lemma {:induction false} TrimEndPadded(s: string, r: string)
    requires AllSpace(r) && (s == [] || !IsSpace(s[|s| - 1]))
    ensures TrimEnd(s + r) == s
    decreases |r|
  {
    if r == [] {
      assert s + r == s;
    } else {
      assert (s + r)[..|s + r| - 1] == s + r[..|r| - 1];
      TrimEndPadded(s, r[..|r| - 1]);
    }
  }

  /** A trimmed text between white space is what `trim` gives back. */
  lemma TrimPadded(l: string, text: string, r: string)
    requires AllSpace(l) && AllSpace(r)
    requires text == [] || (!IsSpace(text[0]) && !IsSpace(text[|text| - 1]))
    ensures Trim(l + text + r) == text
  {
    if text == [] {
      assert AllSpace(l + text + r);
      TrimStartPadded(l + text + r, []);
      assert l + text + r + [] == l + text + r;
    } else {
      assert l + text + r == l + (text + r);
      TrimStartPadded(l, text + r);
      TrimEndPadded(text, r);
    }
  }

  /** Trimming keeps a character out: `trim` only removes, never adds. */
  lemma TrimWithout(s: string, ch: char)
    requires ch !in s
    ensures ch !in Trim(s)
  {
    var t := TrimStart(s);
    TrimStartShape(s);
    forall q | 0 <= q < |t| ensures t[q] != ch {
      assert t[q] == s[|s| - |t| + q];
    }
    var r := TrimEnd(t);
    TrimEndShape(t);
    forall q | 0 <= q < |r| ensures r[q] != ch {
      assert r[q] == t[q];
    }
    assert Trim(s) == r;
  }

  /**
   * JavaScript's `s.replace(pat, rep)` with a string pattern: only the first
   * occurrence of `pat` is replaced (the replacements used here hold no `$`).
   */
  function ReplaceFirst(s: string, pat: string, rep: string): (r: string)
    requires pat != []
    ensures IndexOf(s, pat, 0) == -1 ==> r == s
    ensures IndexOf(s, pat, 0) != -1 ==>
              var i := IndexOf(s, pat, 0);
              r == s[..i] + rep + s[i + |pat|..] && s == s[..i] + pat + s[i + |pat|..]
  {
    var i := IndexOf(s, pat, 0);
    if i == -1 then s
    else
      assert s == s[..i] + s[i..i + |pat|] + s[i + |pat|..];
      s[..i] + rep + s[i + |pat|..]
  }

  /** The ASCII digits matched by the regular-expression class `\d`. */
  predicate IsDigit(c: char) {
    '0' <= c <= '9'
  }

  predicate AllDigits(s: string) {
    forall i :: 0 <= i < |s| ==> IsDigit(s[i])
  }

  function DigitChar(d: nat): (c: char)
    requires d < 10
    ensures IsDigit(c) && c as int - '0' as int == d
  {
    (d + '0' as int) as char
  }

  /** The number a string of decimal digits denotes. */
  function DecimalValue(s: string): nat
    requires AllDigits(s)
  {
    if s == [] then 0
    else DecimalValue(s[..|s| - 1]) * 10 + (s[|s| - 1] as int - '0' as int)
  }

  /**
   * JavaScript's rendering of a non-negative integer (`${n}`): its shortest
   * decimal digits, which denote `n` again.
   */
  function Decimal(n: nat): (r: string)
    decreases n
    ensures |r| >= 1 && AllDigits(r)
    ensures |r| > 1 ==> r[0] != '0'
    ensures DecimalValue(r) == n
  {
    if n < 10 then [DigitChar(n)]
    else
      var p := Decimal(n / 10);
      var r := p + [DigitChar(n % 10)];
      assert r[..|r| - 1] == p;
      r
  }
}
