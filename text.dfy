/** Character classes and string helpers of the JavaScript runtime. */
module Text {

  /** The JavaScript regular-expression class `\s`, which is also the set of
      characters `String.prototype.trim` removes (WhiteSpace and LineTerminator
      of the ECMAScript grammar). */
  predicate IsWhitespace(c: char)
  {
    || c == ' ' || c == '\t' || c == '\n' || c == '\r'
    || c == '\U{000B}' || c == '\U{000C}' || c == '\U{00A0}' || c == '\U{1680}'
    || ('\U{2000}' <= c <= '\U{200A}')
    || c == '\U{2028}' || c == '\U{2029}' || c == '\U{202F}' || c == '\U{205F}'
    || c == '\U{3000}' || c == '\U{FEFF}'
  }

  /** How many characters at the start of `s` satisfy `p`. */
  function Lead(s: string, p: char -> bool): (n: nat)
    ensures n <= |s|
  {
    if s != [] && p(s[0]) then 1 + Lead(s[1..], p) else 0
  }

  /** How many characters at the end of `s` satisfy `p`. */
  function Trail(s: string, p: char -> bool): (n: nat)
    ensures n <= |s|
  {
    if s != [] && p(s[|s| - 1]) then 1 + Trail(s[..|s| - 1], p) else 0
  }

  /** The leading run counted by `Lead` is the longest one. */
  lemma {:induction false} LeadFacts(s: string, p: char -> bool)
    ensures forall i | 0 <= i < Lead(s, p) :: p(s[i])
    ensures Lead(s, p) < |s| ==> !p(s[Lead(s, p)])
  {
    if s != [] && p(s[0]) {
      LeadFacts(s[1..], p);
      forall i | 1 <= i < Lead(s, p) ensures p(s[i]) {
        assert s[i] == s[1..][i - 1];
      }
    }
  }

  /** The trailing run counted by `Trail` is the longest one. */
  lemma {:induction false} TrailFacts(s: string, p: char -> bool)
    ensures forall i | |s| - Trail(s, p) <= i < |s| :: p(s[i])
    ensures Trail(s, p) < |s| ==> !p(s[|s| - Trail(s, p) - 1])
  {
    if s != [] && p(s[|s| - 1]) {
      TrailFacts(s[..|s| - 1], p);
    }
  }

  /** `s` without its longest prefix of characters satisfying `p`. */
  function DropLeading(s: string, p: char -> bool): string
  {
    s[Lead(s, p)..]
  }

  /** `s` without its longest suffix of characters satisfying `p`. */
  function DropTrailing(s: string, p: char -> bool): string
  {
    s[..|s| - Trail(s, p)]
  }

  /** What is left is the suffix of `s` after the dropped characters, which
      all satisfy `p`; it does not start with such a character, so the prefix
      dropped is the longest one. */
  lemma DropLeadingFacts(s: string, p: char -> bool)
    ensures var r := DropLeading(s, p);
      && |r| <= |s|
      && (forall i | 0 <= i < |r| :: r[i] == s[|s| - |r| + i])
      && (r != [] ==> !p(r[0]))
      && forall i | 0 <= i < |s| - |r| :: p(s[i])
  {
    LeadFacts(s, p);
  }

  /** What is left is the prefix of `s` before the dropped characters, which
      all satisfy `p`; it does not end with such a character. */
  lemma DropTrailingFacts(s: string, p: char -> bool)
    ensures var r := DropTrailing(s, p);
      && |r| <= |s|
      && (forall i | 0 <= i < |r| :: r[i] == s[i])
      && (r != [] ==> !p(r[|r| - 1]))
      && forall i | |r| <= i < |s| :: p(s[i])
  {
    TrailFacts(s, p);
  }

  /** Dropping from both ends leaves a slice `s[a..b]`: the first `a`
      characters and the last `|s| - b` all satisfy `p`. */
  lemma {:induction false} DropBothIsSlice(s: string, p: char -> bool) returns (a: nat, b: nat)
    ensures a <= b <= |s| && DropTrailing(DropLeading(s, p), p) == s[a..b]
    ensures forall i | 0 <= i < a :: p(s[i])
    ensures forall i | b <= i < |s| :: p(s[i])
  {
    var l := DropLeading(s, p);
    var r := DropTrailing(l, p);
    DropLeadingFacts(s, p);
    DropTrailingFacts(l, p);
    a := |s| - |l|;
    b := a + |r|;
    forall k | 0 <= k < |r| ensures r[k] == s[a..b][k] {
      assert r[k] == l[k] == s[a + k];
    }
    forall i | b <= i < |s| ensures p(s[i]) {
      assert s[i] == l[i - a];
    }
  }

  /** `s.trim()`. */
  function Trim(s: string): string
  {
    DropTrailing(DropLeading(s, IsWhitespace), IsWhitespace)
  }

  /** `!s.trim()`: every character is one `trim` removes, so nothing is
      left once trimmed (`BlankIffTrimEmpty`). */
  predicate IsBlank(s: string)
  {
    forall i | 0 <= i < |s| :: IsWhitespace(s[i])
  }

  /** Trimming leaves nothing exactly when every character is whitespace. */
  lemma {:induction false} BlankIffTrimEmpty(s: string)
    ensures IsBlank(s) <==> Trim(s) == []
  {
    var l := DropLeading(s, IsWhitespace);
    DropLeadingFacts(s, IsWhitespace);
    DropTrailingFacts(l, IsWhitespace);
    if Trim(s) == [] {
      assert l == [];
    } else {
      var t := Trim(s);
      assert t[0] == l[0] == s[|s| - |l|];
    }
  }

  // ---- decimal numerals -------------------------------------------------

  predicate IsDigit(c: char) { '0' <= c <= '9' }

  predicate AllDigits(s: string) { forall i | 0 <= i < |s| :: IsDigit(s[i]) }

  function DigitChar(d: nat): (c: char)
    requires d < 10
    ensures IsDigit(c) && c as int - '0' as int == d
  {
    ('0' as int + d) as char
  }

  /** The value of a string of decimal digits (0 for the empty string). */
  function Value(s: string): nat
    requires AllDigits(s)
  {
    if s == [] then 0 else 10 * Value(s[..|s| - 1]) + (s[|s| - 1] as int - '0' as int)
  }

  /** `String(n)` for a non-negative integer: its digits, no leading zero. */
  function Show(n: nat): (s: string)
    ensures 1 <= |s| && AllDigits(s)
    ensures |s| > 1 ==> s[0] != '0'
  {
    if n < 10 then [DigitChar(n)] else Show(n / 10) + [DigitChar(n % 10)]
  }

  function Pow10(k: nat): nat { if k == 0 then 1 else 10 * Pow10(k - 1) }

  function Zeros(k: nat): (z: string)
    ensures |z| == k && AllDigits(z)
  {
    if k == 0 then [] else Zeros(k - 1) + ['0']
  }

  /** `n` with zeros added on the left up to `width` digits, as date-fns
      formats `dd`, `MM` and `yyyy`; a wider number keeps all its digits. */
  function Pad(n: nat, width: nat): (s: string)
    ensures AllDigits(s) && |s| >= width
  {
    var d := Show(n);
    if |d| >= width then d else Zeros(width - |d|) + d
  }

  lemma {:induction false} ValueOfShow(n: nat)
    ensures Value(Show(n)) == n
  {
    if n >= 10 {
      ValueOfShow(n / 10);
      var s := Show(n);
      assert s[..|s| - 1] == Show(n / 10);
    }
  }

  lemma {:induction false} ShowLength(n: nat, w: nat)
    requires 1 <= w && n < Pow10(w)
    ensures |Show(n)| <= w
  {
    if n >= 10 {
      ShowLength(n / 10, w - 1);
    }
  }

  lemma {:induction false} ValueLeadingZeros(k: nat, s: string)
    requires AllDigits(s)
    ensures AllDigits(Zeros(k) + s) && Value(Zeros(k) + s) == Value(s)
  {
    if s == [] {
      assert Zeros(k) + s == Zeros(k);
      ValueOfZeros(k);
    } else {
      var t := Zeros(k) + s;
      assert t[..|t| - 1] == Zeros(k) + s[..|s| - 1];
      ValueLeadingZeros(k, s[..|s| - 1]);
    }
  }

  lemma {:induction false} ValueOfZeros(k: nat)
    ensures Value(Zeros(k)) == 0
  {
    if k > 0 {
      ValueOfZeros(k - 1);
      assert Zeros(k)[..k - 1] == Zeros(k - 1);
    }
  }

  /** A padded numeral has exactly `width` digits when the number fits, and
      reads back as the number. */
  lemma {:induction false} PadFacts(n: nat, width: nat)
    requires 1 <= width && n < Pow10(width)
    ensures |Pad(n, width)| == width
    ensures Value(Pad(n, width)) == n
  {
    ShowLength(n, width);
    ValueOfShow(n);
    var d := Show(n);
    if |d| < width {
      ValueLeadingZeros(width - |d|, d);
      assert Pad(n, width) == Zeros(width - |d|) + d;
    } else {
      assert Pad(n, width) == d;
    }
  }

  /** A two-digit number prints as exactly two digits. */
  lemma {:induction false} ShowTwoDigits(n: nat)
    requires 10 <= n <= 99
    ensures |Show(n)| == 2 && Value(Show(n)) == n
  {
    ShowLength(n, 2);
    ValueOfShow(n);
  }
}
