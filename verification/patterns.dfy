/** The two regular expressions of the server-side validator, given two
    readings each: the regex semantics as an existential decomposition of
    the string into the pattern's parts, and a left-to-right scan that a
    programmer would write by hand. The scans are proved to accept exactly
    the strings the decompositions describe.

    Both patterns are applied with Python's `re.match`, which anchors at the
    start of the string only. The email pattern has no `$`, so only a prefix
    of the address has to match; the phone pattern ends in `$`, which in
    Python matches at the very end or just before one final newline.
    Characters are compared as ASCII: `\d` is read as '0'..'9'.
 */
module Patterns {

  predicate IsDigit(c: char) {
    '0' <= c <= '9'
  }

  predicate IsNonZeroDigit(c: char) {
    '1' <= c <= '9'
  }

  /** No '@' in s[lo..hi]: the text matched by a run of `[^@]`. */
  predicate NoAtIn(s: string, lo: int, hi: int)
    requires 0 <= lo <= hi <= |s|
  {
    forall m :: lo <= m < hi ==> s[m] != '@'
  }

  /** Every character of s[lo..hi] is a digit: the text matched by a run of `\d`. */
  predicate DigitsIn(s: string, lo: int, hi: int)
    requires 0 <= lo <= hi <= |s|
  {
    forall m :: lo <= m < hi ==> IsDigit(s[m])
  }

  // ---------------------------------------------------------------------
  // Email: [^@]+@[^@]+\.[^@]+   (re.match: prefix match)
  // ---------------------------------------------------------------------

  /** The prefix e[..end] splits as L "@" D "." T with L = e[..at],
      D = e[at+1..dot], T = e[dot+1..end], all three non-empty and free of '@'. */
  predicate EmailSplit(e: string, at: int, dot: int, end: int) {
    && 0 < at && at + 1 < dot && dot + 1 < end <= |e|
    && e[at] == '@' && e[dot] == '.'
    && NoAtIn(e, 0, at) && NoAtIn(e, at + 1, dot) && NoAtIn(e, dot + 1, end)
  }

  /** What `re.match(r"[^@]+@[^@]+\.[^@]+", e)` accepts: some prefix of e
      has the three-part form. Whatever follows that prefix is ignored. */
  predicate EmailMatches(e: string) {
    exists at, dot, end | 0 <= at <= |e| && 0 <= dot <= |e| && 0 <= end <= |e| ::
      EmailSplit(e, at, dot, end)
  }

  /** A dot at position d that can close the domain part: the character
      after it exists and can start the top-level part. */
  predicate DotClosesDomain(e: string, d: int)
    requires 0 <= d < |e|
  {
    e[d] == '.' && d + 1 < |e| && e[d + 1] != '@'
  }

  /** Scans for the first '@', then looks for a dot that closes a non-empty
      domain part before the next '@'. */
  method ScanEmail(e: string) returns (ok: bool)
    ensures ok <==> EmailMatches(e)
  {
    var at := 0;
    while at < |e| && e[at] != '@'
      invariant 0 <= at <= |e|
      invariant NoAtIn(e, 0, at)
    {
      at := at + 1;
    }
    if at == 0 || at == |e| {
      NoSplitWithoutLocalPart(e, at);
      return false;
    }
    var j := at + 1;
    while j < |e| && e[j] != '@'
      invariant at + 1 <= j <= |e|
      invariant NoAtIn(e, at + 1, j)
      invariant forall d :: at + 1 < d < j ==> !DotClosesDomain(e, d)
    {
      if j > at + 1 && DotClosesDomain(e, j) {
        assert EmailSplit(e, at, j, j + 2);
        return true;
      }
      j := j + 1;
    }
    NoSplitAfterScan(e, at, j);
    return false;
  }

  /** Any split's '@' is the first '@' of the string. */
  lemma SplitAtIsFirstAt(e: string, at: int, dot: int, end: int, first: int)
    requires EmailSplit(e, at, dot, end)
    requires 0 <= first <= |e| && NoAtIn(e, 0, first)
    requires first == |e| || e[first] == '@'
    ensures at == first
  {
  }

  /** No '@' at all, or one at the very start: nothing can match. */
  lemma NoSplitWithoutLocalPart(e: string, first: int)
    requires 0 <= first <= |e| && NoAtIn(e, 0, first)
    requires first == |e| || e[first] == '@'
    requires first == 0 || first == |e|
    ensures !EmailMatches(e)
  {
  }

  /** The second scan reached the next '@' or the end without finding a
      closing dot: nothing can match. */
  lemma NoSplitAfterScan(e: string, at: int, j: int)
    requires 0 < at < |e| && e[at] == '@' && NoAtIn(e, 0, at)
    requires at + 1 <= j <= |e| && NoAtIn(e, at + 1, j)
    requires j == |e| || e[j] == '@'
    requires forall d :: at + 1 < d < j ==> !DotClosesDomain(e, d)
    ensures !EmailMatches(e)
  {
    if a, dot, end :| 0 <= a <= |e| && 0 <= dot <= |e| && 0 <= end <= |e| && EmailSplit(e, a, dot, end) {
      SplitAtIsFirstAt(e, a, dot, end, at);
      assert e[dot + 1] != '@';
      if dot < j {
        assert DotClosesDomain(e, dot);
      }
    }
  }

  /** The email check is a prefix check: appending anything, '@' included,
      to an accepted address keeps it accepted. */
  lemma EmailMatchIgnoresSuffix(e: string, junk: string)
    requires EmailMatches(e)
    ensures EmailMatches(e + junk)
  {
    var at, dot, end :| 0 <= at <= |e| && 0 <= dot <= |e| && 0 <= end <= |e| && EmailSplit(e, at, dot, end);
    var e' := e + junk;
    assert forall m :: 0 <= m < |e| ==> e'[m] == e[m];
    assert EmailSplit(e', at, dot, end);
  }

  // ---------------------------------------------------------------------
  // Phone: ^\+?[1-9]?\d{9,15}$
  // ---------------------------------------------------------------------

  /** p splits as s o d with s = p[..a] either "" or "+", o = p[a..b] either
      "" or one digit 1-9, and d = p[b..] a run of 9 to 15 digits. */
  predicate PhoneSplit(p: string, a: int, b: int) {
    && 0 <= a <= 1 && a <= b <= a + 1 && b <= |p|
    && (a == 1 ==> p[0] == '+')
    && (b == a + 1 ==> IsNonZeroDigit(p[a]))
    && DigitsIn(p, b, |p|)
    && 9 <= |p| - b <= 15
  }

  /** The pattern matched against the whole of p, `$` at the very end. */
  predicate PhoneBody(p: string) {
    exists a, b | 0 <= a <= 1 && 0 <= b <= 2 :: PhoneSplit(p, a, b)
  }

  /** What `re.match(r"^\+?[1-9]?\d{9,15}$", p)` accepts: `$` also matches
      just before a newline that ends the string. */
  predicate PhoneMatches(p: string) {
    || PhoneBody(p)
    || (|p| > 0 && p[|p| - 1] == '\n' && PhoneBody(p[..|p| - 1]))
  }

  /** Where the digit run starts: after a leading '+' if there is one. */
  function RunStart(p: string): (s: nat)
    ensures s <= |p|
    ensures s == 1 <==> (|p| > 0 && p[0] == '+')
  {
    if |p| > 0 && p[0] == '+' then 1 else 0
  }

  /** The digit-run-length rule: after an optional '+', only digits, and
      9 to 15 of them, or 16 when the first is 1-9. */
  predicate DigitRunRule(p: string) {
    var s := RunStart(p);
    && DigitsIn(p, s, |p|)
    && (9 <= |p| - s <= 15 || (|p| - s == 16 && IsNonZeroDigit(p[s])))
  }

  /** The regex and the run-length rule accept the same strings. */
  lemma PhoneBodyIffRunRule(p: string)
    ensures PhoneBody(p) <==> DigitRunRule(p)
  {
    var s := RunStart(p);
    if PhoneBody(p) {
      var a, b :| 0 <= a <= 1 && 0 <= b <= 2 && PhoneSplit(p, a, b);
      if a == 0 {
        assert IsDigit(p[0]);
      }
      assert a == s;
    }
    if DigitRunRule(p) {
      if |p| - s <= 15 {
        assert PhoneSplit(p, s, s);
      } else {
        assert PhoneSplit(p, s, s + 1);
      }
    }
  }

  /** An accepted phone body ends in a digit, never in a newline. */
  lemma PhoneBodyEndsInDigit(p: string)
    requires PhoneBody(p)
    ensures |p| > 0 && IsDigit(p[|p| - 1])
  {
  }

  /** Drops one final newline, skips an optional '+', counts the digits and
      applies the run-length rule. */
  method ScanPhone(p: string) returns (ok: bool)
    ensures ok <==> PhoneMatches(p)
  {
    var q := p;
    if |p| > 0 && p[|p| - 1] == '\n' {
      q := p[..|p| - 1];
      if PhoneBody(p) {
        PhoneBodyEndsInDigit(p);
      }
    }
    var s := if |q| > 0 && q[0] == '+' then 1 else 0;
    var i := s;
    while i < |q| && IsDigit(q[i])
      invariant s <= i <= |q|
      invariant DigitsIn(q, s, i)
    {
      i := i + 1;
    }
    ok := i == |q| && (9 <= |q| - s <= 15 || (|q| - s == 16 && IsNonZeroDigit(q[s])));
    PhoneBodyIffRunRule(q);
  }
}
