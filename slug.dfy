/** `createSlug` of src/utils/postUtils.ts: a title and a creation date become
    the post's URL path segment `<title part>-DD-MM-YYYY`. The title part is
    the result of four global regular-expression replacements, each modelled
    as one left-to-right pass. */
module Slug {
  import opened Seqs
  import opened Text
  import opened Posts
  import opened Wrappers

  /** The Unicode property `Emoji` (UTS #51) matched by `\p{Emoji}`. Its ASCII
      members, `#`, `*` and the digits `0`-`9`, are exact. Outside ASCII the
      table is approximated by the copyright, registered, double and
      interrobang exclamation, trade mark and information signs and by the
      blocks U+2600-U+27BF and U+1F000-U+1FAFF: this misses emoji such as
      U+2B50 (star) and U+231A (watch), and includes non-emoji such as
      U+2605 (black star) and U+2713 (check mark). */
  predicate IsEmoji(c: char)
  {
    || c == '#' || c == '*' || IsDigit(c)
    || c == '\U{00A9}' || c == '\U{00AE}' || c == '\U{203C}' || c == '\U{2049}'
    || c == '\U{2122}' || c == '\U{2139}'
    || ('\U{2600}' <= c <= '\U{27BF}')
    || ('\U{1F000}' <= c <= '\U{1FAFF}')
  }

  /** The class `[!@#$%^&*()_+=[\]{};':"\\|,.<>/?`~₹€£¥₩\p{Emoji}]`. */
  predicate IsBlacklisted(c: char)
  {
    || c == '!' || c == '@' || c == '#' || c == '$' || c == '%' || c == '^'
    || c == '&' || c == '*' || c == '(' || c == ')' || c == '_' || c == '+'
    || c == '=' || c == '[' || c == ']' || c == '{' || c == '}' || c == ';'
    || c == '\'' || c == ':' || c == '"' || c == '\\' || c == '|' || c == ','
    || c == '.' || c == '<' || c == '>' || c == '/' || c == '?' || c == '`'
    || c == '~'
    || c == '\U{20B9}' || c == '\U{20AC}' || c == '\U{00A3}' || c == '\U{00A5}' || c == '\U{20A9}'
    || IsEmoji(c)
  }

  predicate IsAllowed(c: char) { !IsBlacklisted(c) }

  predicate IsHyphen(c: char) { c == '-' }

  /** A character that every step keeps: not whitespace, not blacklisted,
      not a hyphen. */
  predicate IsOrdinary(c: char)
  {
    !IsWhitespace(c) && !IsBlacklisted(c) && c != '-'
  }

  ghost predicate NoDoubleHyphen(s: string)
  {
    forall i | 0 <= i < |s| - 1 :: !(s[i] == '-' && s[i + 1] == '-')
  }

  /** What the title part of every slug looks like. */
  ghost predicate IsCleanTitle(s: string)
  {
    && NoSpaceOrBlacklisted(s)
    && NoDoubleHyphen(s)
    && (s != [] ==> s[0] != '-' && s[|s| - 1] != '-')
  }

  /** Step 1, `replace(/\s+/g, '-')`: each maximal run of whitespace becomes one
      hyphen. `inRun` says the previous character was whitespace. */
  function HyphenateWhitespace(s: string, inRun: bool): string
  {
    if s == [] then []
    else if IsWhitespace(s[0]) then (if inRun then [] else "-") + HyphenateWhitespace(s[1..], true)
    else [s[0]] + HyphenateWhitespace(s[1..], false)
  }

  /** Step 2, `replace(blacklistRegex, '')`. */
  function StripBlacklisted(s: string): string
  {
    Filter(s, IsAllowed)
  }

  /** Step 3, `replace(/-+/g, '-')`. `afterHyphen` says the previous character
      was a hyphen. */
  function CollapseHyphens(s: string, afterHyphen: bool): string
  {
    if s == [] then []
    else if s[0] == '-' then (if afterHyphen then [] else "-") + CollapseHyphens(s[1..], true)
    else [s[0]] + CollapseHyphens(s[1..], false)
  }

  /** Step 4, `replace(/^-+|-+$/g, '')`. */
  function TrimHyphens(s: string): string
  {
    DropTrailing(DropLeading(s, IsHyphen), IsHyphen)
  }

  function TitlePart(title: string): string
  {
    TrimHyphens(CollapseHyphens(StripBlacklisted(HyphenateWhitespace(title, false)), false))
  }

  /** `${formattedTitle}-${dd}-${MM}-${yyyy}`. */
  function CreateSlug(title: string, date: CalendarDate): string
  {
    TitlePart(title) + "-" + Pad(date.day, 2) + "-" + Pad(date.month, 2) + "-" + Pad(date.year, 4)
  }

  // ---- what each step does ----------------------------------------------

  lemma {:induction false} HyphenateFacts(s: string, inRun: bool)
    ensures forall i | 0 <= i < |HyphenateWhitespace(s, inRun)| :: !IsWhitespace(HyphenateWhitespace(s, inRun)[i])
    ensures Filter(HyphenateWhitespace(s, inRun), IsOrdinary) == Filter(s, IsOrdinary)
  {
    if s != [] {
      var head := if IsWhitespace(s[0]) then (if inRun then [] else "-") else [s[0]];
      var rest := HyphenateWhitespace(s[1..], IsWhitespace(s[0]));
      HyphenateFacts(s[1..], IsWhitespace(s[0]));
      assert HyphenateWhitespace(s, inRun) == head + rest;
      FilterConcat(head, rest, IsOrdinary);
      assert Filter(s, IsOrdinary) == Filter([s[0]], IsOrdinary) + Filter(s[1..], IsOrdinary) by {
        FilterConcat([s[0]], s[1..], IsOrdinary);
        assert s == [s[0]] + s[1..];
      }
    }
  }

  lemma CollapseFacts(s: string, afterHyphen: bool)
    ensures var r := CollapseHyphens(s, afterHyphen);
      && (forall i | 0 <= i < |r| :: r[i] in s)
      && NoDoubleHyphen(r)
      && (afterHyphen && r != [] ==> r[0] != '-')
      && Filter(r, IsOrdinary) == Filter(s, IsOrdinary)
  {
    CollapseKeepsChars(s, afterHyphen);
    CollapseNoDouble(s, afterHyphen);
    CollapseKeepsOrdinary(s, afterHyphen);
  }

  lemma {:induction false} CollapseKeepsChars(s: string, afterHyphen: bool)
    ensures forall i | 0 <= i < |CollapseHyphens(s, afterHyphen)| :: CollapseHyphens(s, afterHyphen)[i] in s
  {
    if s != [] {
      var head := if s[0] == '-' then (if afterHyphen then [] else "-") else [s[0]];
      var rest := CollapseHyphens(s[1..], s[0] == '-');
      CollapseKeepsChars(s[1..], s[0] == '-');
      var r := head + rest;
      assert CollapseHyphens(s, afterHyphen) == r;
      forall i | 0 <= i < |r| ensures r[i] in s {
        if i >= |head| {
          assert r[i] == rest[i - |head|] && rest[i - |head|] in s[1..];
        }
      }
    }
  }

  lemma {:induction false} CollapseNoDouble(s: string, afterHyphen: bool)
    ensures var r := CollapseHyphens(s, afterHyphen);
      && NoDoubleHyphen(r)
      && (afterHyphen && r != [] ==> r[0] != '-')
  {
    if s != [] {
      var head := if s[0] == '-' then (if afterHyphen then [] else "-") else [s[0]];
      var rest := CollapseHyphens(s[1..], s[0] == '-');
      CollapseNoDouble(s[1..], s[0] == '-');
      var r := head + rest;
      assert CollapseHyphens(s, afterHyphen) == r;
      forall i | 0 <= i < |r| - 1 ensures !(r[i] == '-' && r[i + 1] == '-') {
        if i >= |head| {
          assert r[i] == rest[i - |head|] && r[i + 1] == rest[i + 1 - |head|];
        }
      }
    }
  }

  lemma {:induction false} CollapseKeepsOrdinary(s: string, afterHyphen: bool)
    ensures Filter(CollapseHyphens(s, afterHyphen), IsOrdinary) == Filter(s, IsOrdinary)
  {
    if s != [] {
      var head := if s[0] == '-' then (if afterHyphen then [] else "-") else [s[0]];
      var rest := CollapseHyphens(s[1..], s[0] == '-');
      CollapseKeepsOrdinary(s[1..], s[0] == '-');
      assert CollapseHyphens(s, afterHyphen) == head + rest;
      FilterConcat(head, rest, IsOrdinary);
      assert Filter(s, IsOrdinary) == Filter([s[0]], IsOrdinary) + Filter(s[1..], IsOrdinary) by {
        FilterConcat([s[0]], s[1..], IsOrdinary);
        assert s == [s[0]] + s[1..];
      }
    }
  }

  /** Trimming cuts off a prefix and a suffix made of hyphens only. */
  lemma {:induction false} TrimIsSlice(s: string) returns (a: nat, b: nat)
    ensures a <= b <= |s| && TrimHyphens(s) == s[a..b]
    ensures forall i | 0 <= i < a :: s[i] == '-'
    ensures forall i | b <= i < |s| :: s[i] == '-'
  {
    a, b := DropBothIsSlice(s, IsHyphen);
  }

  lemma {:induction false} TrimFacts(s: string)
    ensures var r := TrimHyphens(s);
      && (forall i | 0 <= i < |r| :: r[i] in s)
      && (NoDoubleHyphen(s) ==> NoDoubleHyphen(r))
      && (r != [] ==> r[0] != '-' && r[|r| - 1] != '-')
      && Filter(r, IsOrdinary) == Filter(s, IsOrdinary)
  {
    var r := TrimHyphens(s);
    var a, b := TrimIsSlice(s);
    var l := DropLeading(s, IsHyphen);
    DropLeadingFacts(s, IsHyphen);
    DropTrailingFacts(l, IsHyphen);
    assert r != [] ==> r[0] == l[0];
    forall i | 0 <= i < |r| ensures r[i] in s && r[i] == s[a + i] {
      assert r[i] == s[a + i];
    }
    FilterSlice(s, a, b, IsOrdinary);
  }

  /** The title part has no whitespace and no blacklisted character, no two hyphens in a row and no hyphen at either end, and keeps
      every ordinary character of the title, in order. */
  lemma {:induction false} TitlePartClean(title: string)
    ensures IsCleanTitle(TitlePart(title))
    ensures Filter(TitlePart(title), IsOrdinary) == Filter(title, IsOrdinary)
  {
    var s1 := HyphenateWhitespace(title, false);
    var s2 := StripBlacklisted(s1);
    var s3 := CollapseHyphens(s2, false);
    var s4 := TrimHyphens(s3);
    HyphenateFacts(title, false);
    CollapseFacts(s2, false);
    TrimFacts(s3);
    assert NoSpaceOrBlacklisted(s2);
    CharsFrom(s3, s2);
    CharsFrom(s4, s3);
    assert Filter(s2, IsOrdinary) == Filter(s1, IsOrdinary) by {
      StripKeepsOrdinary(s1);
    }
  }

  ghost predicate NoSpaceOrBlacklisted(s: string)
  {
    forall i | 0 <= i < |s| :: !IsWhitespace(s[i]) && !IsBlacklisted(s[i])
  }

  /** A text made of characters of a text without whitespace or blacklisted
      characters has none either. */
  lemma {:induction false} CharsFrom(r: string, s: string)
    requires forall i | 0 <= i < |r| :: r[i] in s
    requires NoSpaceOrBlacklisted(s)
    ensures NoSpaceOrBlacklisted(r)
  {
    forall i | 0 <= i < |r| ensures !IsWhitespace(r[i]) && !IsBlacklisted(r[i]) {
      var j :| 0 <= j < |s| && s[j] == r[i];
    }
  }

  lemma {:induction false} StripKeepsOrdinary(s: string)
    ensures Filter(StripBlacklisted(s), IsOrdinary) == Filter(s, IsOrdinary)
  {
    if s != [] {
      StripKeepsOrdinary(s[1..]);
      FilterConcat(if IsAllowed(s[0]) then [s[0]] else [], StripBlacklisted(s[1..]), IsOrdinary);
    }
  }

  /** Digits carry the Emoji property, so no digit of a title survives. */
  lemma {:induction false} NoDigitsInTitlePart(title: string)
    ensures forall i | 0 <= i < |TitlePart(title)| :: !IsDigit(TitlePart(title)[i])
  {
    TitlePartClean(title);
  }

  /** The title part is empty exactly when the title has no ordinary character,
      i.e. consists of whitespace, blacklisted characters and hyphens only. */
  lemma {:induction false} TitlePartEmptyIff(title: string)
    ensures TitlePart(title) == [] <==> forall i | 0 <= i < |title| :: !IsOrdinary(title[i])
  {
    var t := TitlePart(title);
    TitlePartClean(title);
    FilterEmptyIff(title, IsOrdinary);
    FilterEmptyIff(t, IsOrdinary);
  }

  // ---- the title part is a fixed point --------------------------------------

  lemma {:induction false} HyphenateIdentity(s: string, inRun: bool)
    requires forall i | 0 <= i < |s| :: !IsWhitespace(s[i])
    ensures HyphenateWhitespace(s, inRun) == s
  {
    if s != [] {
      HyphenateIdentity(s[1..], false);
    }
  }

  lemma {:induction false} CollapseIdentity(s: string, afterHyphen: bool)
    requires NoDoubleHyphen(s)
    requires afterHyphen && s != [] ==> s[0] != '-'
    ensures CollapseHyphens(s, afterHyphen) == s
  {
    if s != [] {
      CollapseIdentity(s[1..], s[0] == '-');
    }
  }

  /** A clean title is its own title part. */
  lemma {:induction false} CleanIsFixedPoint(s: string)
    requires IsCleanTitle(s)
    ensures TitlePart(s) == s
  {
    HyphenateIdentity(s, false);
    FilterAllPass(s, IsAllowed);
    CollapseIdentity(s, false);
  }

  /** Slugifying a title part again changes nothing. */
  lemma {:induction false} TitlePartIdempotent(title: string)
    ensures TitlePart(TitlePart(title)) == TitlePart(title)
  {
    TitlePartClean(title);
    CleanIsFixedPoint(TitlePart(title));
  }

  // ---- the title part is the title's words joined by single hyphens -------

  /** A character that separates words once whitespace has become hyphens. */
  predicate IsSeparator(c: char) { IsWhitespace(c) || c == '-' }

  /** The word in progress, as a list of zero or one words. */
  function Flush(cur: string): seq<string>
  {
    if cur == [] then [] else [cur]
  }

  /** The maximal runs of non-separator characters of `s`, in order, with
      `cur` the run already read before `s`. */
  function WordsFrom(s: string, cur: string): seq<string>
  {
    if s == [] then Flush(cur)
    else if IsSeparator(s[0]) then Flush(cur) + WordsFrom(s[1..], [])
    else WordsFrom(s[1..], cur + [s[0]])
  }

  function Words(s: string): seq<string>
  {
    WordsFrom(s, [])
  }

  /** `ws.join('-')` */
  function JoinHyphens(ws: seq<string>): string
  {
    if ws == [] then []
    else if |ws| == 1 then ws[0]
    else ws[0] + "-" + JoinHyphens(ws[1..])
  }

  lemma {:induction false} WordsAtSeparator(c: char, t: string, cur: string)
    requires IsSeparator(c)
    ensures WordsFrom([c] + t, cur) == Flush(cur) + WordsFrom(t, [])
  {
    assert ([c] + t)[0] == c && ([c] + t)[1..] == t;
  }

  lemma {:induction false} WordsInWord(c: char, t: string, cur: string)
    requires !IsSeparator(c)
    ensures WordsFrom([c] + t, cur) == WordsFrom(t, cur + [c])
  {
    assert ([c] + t)[0] == c && ([c] + t)[1..] == t;
  }

  /** A word followed by a separator: the word in progress, extended by the
      word, is complete. */
  lemma {:induction false} WordThenSeparator(w: string, c: char, t: string, cur: string)
    requires forall i | 0 <= i < |w| :: !IsSeparator(w[i])
    requires IsSeparator(c)
    ensures WordsFrom(w + [c] + t, cur) == Flush(cur + w) + WordsFrom(t, [])
  {
    if w == [] {
      assert w + [c] + t == [c] + t && cur + w == cur;
      WordsAtSeparator(c, t, cur);
    } else {
      assert w + [c] + t == [w[0]] + (w[1..] + [c] + t);
      WordsInWord(w[0], w[1..] + [c] + t, cur);
      WordThenSeparator(w[1..], c, t, cur + [w[0]]);
      assert cur + [w[0]] + w[1..] == cur + w;
    }
  }

  /** A word with nothing after it completes the word in progress. */
  lemma {:induction false} WordAtEnd(w: string, cur: string)
    requires forall i | 0 <= i < |w| :: !IsSeparator(w[i])
    ensures WordsFrom(w, cur) == Flush(cur + w)
  {
    if w == [] {
      assert cur + w == cur;
    } else {
      assert w == [w[0]] + w[1..];
      WordsInWord(w[0], w[1..], cur);
      WordAtEnd(w[1..], cur + [w[0]]);
      assert cur + [w[0]] + w[1..] == cur + w;
    }
  }

  /** Every word is non-empty and holds no separator. */
  lemma {:induction false} WordsAreWords(s: string, cur: string)
    requires forall i | 0 <= i < |cur| :: !IsSeparator(cur[i])
    ensures forall k | 0 <= k < |WordsFrom(s, cur)| :: WordsFrom(s, cur)[k] != []
    ensures forall k, i | 0 <= k < |WordsFrom(s, cur)| && 0 <= i < |WordsFrom(s, cur)[k]| :: !IsSeparator(WordsFrom(s, cur)[k][i])
  {
    if s != [] {
      if IsSeparator(s[0]) {
        WordsAreWords(s[1..], []);
      } else {
        WordsAreWords(s[1..], cur + [s[0]]);
      }
    }
  }

  /** Splitting words joined by hyphens gives the words back. */
  lemma {:induction false} WordsOfJoin(ws: seq<string>)
    requires forall k | 0 <= k < |ws| :: ws[k] != []
    requires forall k, i | 0 <= k < |ws| && 0 <= i < |ws[k]| :: !IsSeparator(ws[k][i])
    ensures Words(JoinHyphens(ws)) == ws
  {
    if |ws| == 1 {
      WordAtEnd(ws[0], []);
      assert [] + ws[0] == ws[0];
    } else if |ws| > 1 {
      WordsOfJoin(ws[1..]);
      WordThenSeparator(ws[0], '-', JoinHyphens(ws[1..]), []);
      assert [] + ws[0] == ws[0];
      assert JoinHyphens(ws) == ws[0] + ['-'] + JoinHyphens(ws[1..]);
      assert ws == [ws[0]] + ws[1..];
    }
  }

  lemma {:induction false} WhitespaceIsAllowed(c: char)
    requires IsWhitespace(c)
    ensures IsAllowed(c)
  {
  }

  /** Steps 1 and 2 together keep the words of the title with its
      blacklisted characters deleted: step 1 puts a hyphen exactly where a
      whitespace run was, so no two words merge and no word splits. */
  lemma {:induction false} HyphenateStripWords(s: string, inRun: bool, cur: string)
    requires inRun ==> cur == []
    ensures WordsFrom(StripBlacklisted(HyphenateWhitespace(s, inRun)), cur) == WordsFrom(StripBlacklisted(s), cur)
  {
    if s != [] {
      var c, t := s[0], s[1..];
      assert s == [c] + t;
      if IsWhitespace(c) {
        HyphenateStripWords(t, true, []);
        WhitespaceStep(c, t, inRun, cur);
      } else if !IsAllowed(c) {
        HyphenateStripWords(t, false, cur);
        BlacklistedStep(c, t, inRun, cur);
      } else if c == '-' {
        HyphenateStripWords(t, false, []);
        KeptStep(c, t, inRun, cur, []);
      } else {
        HyphenateStripWords(t, false, cur + [c]);
        KeptStep(c, t, inRun, cur, cur + [c]);
      }
    }
  }

  lemma {:induction false} WhitespaceStep(c: char, t: string, inRun: bool, cur: string)
    requires IsWhitespace(c) && (inRun ==> cur == [])
    requires WordsFrom(StripBlacklisted(HyphenateWhitespace(t, true)), []) == WordsFrom(StripBlacklisted(t), [])
    ensures WordsFrom(StripBlacklisted(HyphenateWhitespace([c] + t, inRun)), cur) == WordsFrom(StripBlacklisted([c] + t), cur)
  {
    var rest := HyphenateWhitespace(t, true);
    var fs := StripBlacklisted(t);
    var fr := StripBlacklisted(rest);
    assert ([c] + t)[0] == c && ([c] + t)[1..] == t;
    WhitespaceIsAllowed(c);
    FilterCons(c, t, IsAllowed);
    assert StripBlacklisted([c] + t) == [c] + fs;
    assert IsSeparator(c);
    WordsAtSeparator(c, fs, cur);
    if inRun {
      assert HyphenateWhitespace([c] + t, inRun) == rest;
    } else {
      assert HyphenateWhitespace([c] + t, inRun) == ['-'] + rest;
      FilterCons('-', rest, IsAllowed);
      assert StripBlacklisted(['-'] + rest) == ['-'] + fr;
      WordsAtSeparator('-', fr, cur);
    }
  }

  lemma {:induction false} BlacklistedStep(c: char, t: string, inRun: bool, cur: string)
    requires !IsWhitespace(c) && !IsAllowed(c)
    requires WordsFrom(StripBlacklisted(HyphenateWhitespace(t, false)), cur) == WordsFrom(StripBlacklisted(t), cur)
    ensures WordsFrom(StripBlacklisted(HyphenateWhitespace([c] + t, inRun)), cur) == WordsFrom(StripBlacklisted([c] + t), cur)
  {
    var rest := HyphenateWhitespace(t, false);
    assert ([c] + t)[0] == c && ([c] + t)[1..] == t;
    assert HyphenateWhitespace([c] + t, inRun) == [c] + rest;
    FilterCons(c, t, IsAllowed);
    FilterCons(c, rest, IsAllowed);
    assert StripBlacklisted([c] + t) == StripBlacklisted(t);
    assert StripBlacklisted([c] + rest) == StripBlacklisted(rest);
  }

  /** An allowed character other than whitespace passes both steps; `next`
      is the word in progress after it. */
  lemma {:induction false} KeptStep(c: char, t: string, inRun: bool, cur: string, next: string)
    requires !IsWhitespace(c) && IsAllowed(c)
    requires next == if c == '-' then [] else cur + [c]
    requires WordsFrom(StripBlacklisted(HyphenateWhitespace(t, false)), next) == WordsFrom(StripBlacklisted(t), next)
    ensures WordsFrom(StripBlacklisted(HyphenateWhitespace([c] + t, inRun)), cur) == WordsFrom(StripBlacklisted([c] + t), cur)
  {
    var rest := HyphenateWhitespace(t, false);
    var fs := StripBlacklisted(t);
    var fr := StripBlacklisted(rest);
    assert ([c] + t)[0] == c && ([c] + t)[1..] == t;
    assert HyphenateWhitespace([c] + t, inRun) == [c] + rest;
    FilterCons(c, t, IsAllowed);
    FilterCons(c, rest, IsAllowed);
    if c == '-' {
      WordsAtSeparator(c, fr, cur);
      WordsAtSeparator(c, fs, cur);
    } else {
      WordsInWord(c, fr, cur);
      WordsInWord(c, fs, cur);
    }
  }

  /** Step 3 keeps the words: each hyphen run becomes exactly one hyphen. */
  lemma {:induction false} CollapseWords(s: string, afterHyphen: bool, cur: string)
    requires afterHyphen ==> cur == []
    ensures WordsFrom(CollapseHyphens(s, afterHyphen), cur) == WordsFrom(s, cur)
  {
    if s != [] {
      var rest := CollapseHyphens(s[1..], s[0] == '-');
      if s[0] == '-' {
        CollapseWords(s[1..], true, []);
        if afterHyphen {
          assert CollapseHyphens(s, afterHyphen) == rest;
        } else {
          assert CollapseHyphens(s, afterHyphen) == ['-'] + rest;
          assert (['-'] + rest)[1..] == rest;
        }
      } else {
        var cur' := if IsSeparator(s[0]) then [] else cur + [s[0]];
        CollapseWords(s[1..], false, cur');
        assert CollapseHyphens(s, afterHyphen) == [s[0]] + rest;
        assert ([s[0]] + rest)[1..] == rest;
      }
    }
  }

  /** Separators before a text add no word. */
  lemma {:induction false} LeadingSeparators(x: string, y: string)
    requires forall i | 0 <= i < |x| :: IsSeparator(x[i])
    ensures WordsFrom(x + y, []) == WordsFrom(y, [])
  {
    if x != [] {
      assert x + y == [x[0]] + (x[1..] + y);
      WordsAtSeparator(x[0], x[1..] + y, []);
      LeadingSeparators(x[1..], y);
      assert Flush([]) + WordsFrom(x[1..] + y, []) == WordsFrom(y, []);
    } else {
      assert x + y == y;
    }
  }

  /** Separators alone only end the word in progress. */
  lemma {:induction false} OnlySeparators(z: string, cur: string)
    requires forall i | 0 <= i < |z| :: IsSeparator(z[i])
    ensures WordsFrom(z, cur) == Flush(cur)
  {
    if z != [] {
      OnlySeparators(z[1..], []);
    }
  }

  /** Separators after a text add no word. */
  lemma {:induction false} TrailingSeparators(y: string, z: string, cur: string)
    requires forall i | 0 <= i < |z| :: IsSeparator(z[i])
    ensures WordsFrom(y + z, cur) == WordsFrom(y, cur)
  {
    if y == [] {
      assert y + z == z;
      OnlySeparators(z, cur);
    } else {
      assert (y + z)[0] == y[0] && (y + z)[1..] == y[1..] + z;
      TrailingSeparators(y[1..], z, if IsSeparator(y[0]) then [] else cur + [y[0]]);
    }
  }

  /** Step 4 keeps the words: only hyphens at the ends go. */
  lemma {:induction false} TrimWords(s: string)
    ensures Words(TrimHyphens(s)) == Words(s)
  {
    var a, b := TrimIsSlice(s);
    assert s == s[..a] + (s[a..b] + s[b..]);
    LeadingSeparators(s[..a], s[a..b] + s[b..]);
    TrailingSeparators(s[a..b], s[b..], []);
  }

  lemma {:induction false} NoDoubleHyphenTail(r: string)
    requires r != [] && NoDoubleHyphen(r)
    ensures NoDoubleHyphen(r[1..])
  {
    var t := r[1..];
    forall i | 0 <= i < |t| - 1 ensures !(t[i] == '-' && t[i + 1] == '-') {
      assert t[i] == r[i + 1] && t[i + 1] == r[i + 2];
    }
  }

  /** A clean text is its words joined by hyphens; `cur` is the word in
      progress before it. */
  lemma {:induction false} CleanJoins(r: string, cur: string)
    requires forall i | 0 <= i < |r| :: !IsWhitespace(r[i])
    requires NoDoubleHyphen(r)
    requires r != [] ==> r[|r| - 1] != '-'
    requires cur == [] && r != [] ==> r[0] != '-'
    ensures cur + r == JoinHyphens(WordsFrom(r, cur))
  {
    if r == [] {
      assert cur + r == cur;
    } else {
      var c, t := r[0], r[1..];
      assert r == [c] + t;
      NoDoubleHyphenTail(r);
      if c == '-' {
        assert t != [] && t[0] != '-';
        CleanJoins(t, []);
        var ws := WordsFrom(t, []);
        assert ws != [];
        WordsAtSeparator(c, t, cur);
        assert ([cur] + ws)[1..] == ws;
        assert JoinHyphens([cur] + ws) == cur + "-" + JoinHyphens(ws);
      } else {
        assert !IsSeparator(c);
        CleanJoins(t, cur + [c]);
        WordsInWord(c, t, cur);
        assert cur + r == (cur + [c]) + t;
      }
    }
  }

  /** The title part is the words of the title, after deleting its
      blacklisted characters, joined by single hyphens; words are split at
      whitespace and at hyphens. */
  lemma {:induction false} TitlePartIsJoinedWords(title: string)
    ensures TitlePart(title) == JoinHyphens(Words(StripBlacklisted(title)))
  {
    var s2 := StripBlacklisted(HyphenateWhitespace(title, false));
    var s3 := CollapseHyphens(s2, false);
    TitlePartClean(title);
    CleanJoins(TitlePart(title), []);
    TrimWords(s3);
    CollapseWords(s2, false, []);
    HyphenateStripWords(title, false, []);
  }

  // ---- the date suffix ----------------------------------------------------

  /** Reads `-DD-MM-YYYY` back into a date. */
  function ParseDateSuffix(tail: string): Option<CalendarDate>
    requires |tail| == 11
  {
    if tail[0] != '-' || tail[3] != '-' || tail[6] != '-' then None
    else if !AllDigits(tail[1..3]) || !AllDigits(tail[4..6]) || !AllDigits(tail[7..]) then None
    else Some(CalendarDate(Value(tail[7..]), Value(tail[4..6]), Value(tail[1..3])))
  }

  /** Reads `<title>-DD-MM-YYYY` back into its title part and its date. */
  function ParseSlug(slug: string): Option<(string, CalendarDate)>
  {
    if |slug| < 11 then None
    else match ParseDateSuffix(slug[|slug| - 11..])
      case None => None
      case Some(date) => Some((slug[..|slug| - 11], date))
  }

  lemma {:induction false} Pow10Values()
    ensures Pow10(2) == 100 && Pow10(4) == 10000
  {
    assert Pow10(1) == 10;
    assert Pow10(3) == 1000;
  }

  lemma {:induction false} SuffixSlices(dd: string, mm: string, yyyy: string)
    requires |dd| == 2 && |mm| == 2 && |yyyy| == 4
    ensures var tail := "-" + dd + "-" + mm + "-" + yyyy;
      && |tail| == 11 && tail[0] == '-' && tail[3] == '-' && tail[6] == '-'
      && tail[1..3] == dd && tail[4..6] == mm && tail[7..] == yyyy
  {
  }

  lemma {:induction false} ParseDateSuffixJoined(dd: string, mm: string, yyyy: string)
    requires |dd| == 2 && |mm| == 2 && |yyyy| == 4
    requires AllDigits(dd) && AllDigits(mm) && AllDigits(yyyy)
    ensures ParseDateSuffix("-" + dd + "-" + mm + "-" + yyyy)
            == Some(CalendarDate(Value(yyyy), Value(mm), Value(dd)))
  {
    SuffixSlices(dd, mm, yyyy);
  }

  lemma {:induction false} ParseAppended(t: string, tail: string)
    requires |tail| == 11
    ensures ParseSlug(t + tail) == match ParseDateSuffix(tail)
                                   case None => None
                                   case Some(date) => Some((t, date))
  {
    assert (t + tail)[|t|..] == tail && (t + tail)[..|t|] == t;
  }

  lemma {:induction false} Reassociate(t: string, dd: string, mm: string, yyyy: string)
    ensures t + "-" + dd + "-" + mm + "-" + yyyy == t + ("-" + dd + "-" + mm + "-" + yyyy)
  {
  }

  /** A title part followed by `-DD-MM-YYYY` reads back as that title part
      and the date. */
  lemma ParseComposed(t: string, date: CalendarDate)
    requires date.Valid()
    ensures var slug := t + "-" + Pad(date.day, 2) + "-" + Pad(date.month, 2) + "-" + Pad(date.year, 4);
      |slug| == |t| + 11 && ParseSlug(slug) == Some((t, date))
  {
    Pow10Values();
    PadFacts(date.day, 2);
    PadFacts(date.month, 2);
    PadFacts(date.year, 4);
    var dd, mm, yyyy := Pad(date.day, 2), Pad(date.month, 2), Pad(date.year, 4);
    var tail := "-" + dd + "-" + mm + "-" + yyyy;
    SuffixSlices(dd, mm, yyyy);
    ParseDateSuffixJoined(dd, mm, yyyy);
    Reassociate(t, dd, mm, yyyy);
    ParseAppended(t, tail);
  }

  /** Every slug is the title part followed by `-DD-MM-YYYY`: day and month
      as exactly two digits, the year as exactly four, each reading back as
      the date's own field. */
  lemma SlugRoundTrip(title: string, date: CalendarDate)
    requires date.Valid()
    ensures |CreateSlug(title, date)| == |TitlePart(title)| + 11
    ensures ParseSlug(CreateSlug(title, date)) == Some((TitlePart(title), date))
  {
    ParseComposed(TitlePart(title), date);
  }

  /** A title without any ordinary character gives the degenerate slug
      `-DD-MM-YYYY`. */
  lemma {:induction false} DegenerateSlug(title: string, date: CalendarDate)
    requires date.Valid()
    requires forall i | 0 <= i < |title| :: IsWhitespace(title[i]) || IsBlacklisted(title[i])
    ensures |CreateSlug(title, date)| == 11 && CreateSlug(title, date)[0] == '-'
    ensures ParseSlug(CreateSlug(title, date)) == Some(("", date))
  {
    TitlePartEmptyIff(title);
    SlugRoundTrip(title, date);
  }
}
