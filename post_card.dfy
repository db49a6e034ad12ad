/** The text a feed card shows for a post (src/components/PostCard.tsx):
    the first non-blank line of the content, without markdown marks. */
module PostCard {
  import opened Wrappers
  import opened Seqs
  import opened Text

  /** `s.split('\n')`: the pieces between line feeds, never an empty list. */
  function SplitLines(s: string): (lines: seq<string>)
    ensures |lines| >= 1
    ensures forall i | 0 <= i < |lines| :: '\n' !in lines[i]
  {
    if s == [] then [[]]
    else
      var rest := SplitLines(s[1..]);
      if s[0] == '\n' then [[]] + rest else [[s[0]] + rest[0]] + rest[1..]
  }

  /** `lines.join('\n')` */
  function JoinLines(lines: seq<string>): string
    requires |lines| >= 1
  {
    if |lines| == 1 then lines[0] else lines[0] + "\n" + JoinLines(lines[1..])
  }

  /** Splitting loses nothing: joining the pieces gives the content back. */
  lemma {:induction false} JoinSplit(s: string)
    ensures JoinLines(SplitLines(s)) == s
  {
    if s != [] {
      var rest := SplitLines(s[1..]);
      JoinSplit(s[1..]);
      if s[0] == '\n' {
        assert SplitLines(s) == [[]] + rest;
        assert JoinLines(SplitLines(s)) == [] + "\n" + JoinLines(rest);
      } else {
        var lines := [[s[0]] + rest[0]] + rest[1..];
        assert SplitLines(s) == lines;
        if |rest| == 1 {
          assert JoinLines(lines) == [s[0]] + rest[0];
        } else {
          assert lines[1..] == rest[1..];
          assert JoinLines(lines) == [s[0]] + rest[0] + "\n" + JoinLines(rest[1..]);
          assert JoinLines(rest) == rest[0] + "\n" + JoinLines(rest[1..]);
        }
      }
    }
  }

  /** A piece without line feeds glued in front of a text lengthens the
      text's first line. */
  lemma {:induction false} SplitPrefix(w: string, t: string)
    requires '\n' !in w
    ensures SplitLines(w + t) == [w + SplitLines(t)[0]] + SplitLines(t)[1..]
  {
    var lines := SplitLines(t);
    if w == [] {
      assert w + t == t && w + lines[0] == lines[0];
      assert [lines[0]] + lines[1..] == lines;
    } else {
      SplitPrefix(w[1..], t);
      assert (w + t)[1..] == w[1..] + t;
      var rest := SplitLines(w[1..] + t);
      assert SplitLines(w + t) == [[w[0]] + rest[0]] + rest[1..];
      assert [w[0]] + rest[0] == w + lines[0];
    }
  }

  /** Joining pieces without line feeds and splitting again gives the same
      pieces. */
  lemma {:induction false} SplitJoin(lines: seq<string>)
    requires |lines| >= 1
    requires forall i | 0 <= i < |lines| :: '\n' !in lines[i]
    ensures SplitLines(JoinLines(lines)) == lines
  {
    if |lines| == 1 {
      SplitPrefix(lines[0], []);
      assert lines[0] + [] == lines[0];
    } else {
      SplitJoin(lines[1..]);
      var t := "\n" + JoinLines(lines[1..]);
      assert JoinLines(lines) == lines[0] + t;
      SplitPrefix(lines[0], t);
      assert t[1..] == JoinLines(lines[1..]);
      assert SplitLines(t) == [[]] + lines[1..];
      assert lines[0] + [] == lines[0];
    }
  }

  predicate IsNotBlank(line: string) { !IsBlank(line) }

  /** `lines.find(line => line.trim() !== '')`, as the index found. */
  function FirstNonBlank(lines: seq<string>): (k: Option<nat>)
    ensures k.Some? ==> k.value < |lines| && !IsBlank(lines[k.value])
    ensures k.Some? ==> forall j | 0 <= j < k.value :: IsBlank(lines[j])
    ensures k.None? <==> forall j | 0 <= j < |lines| :: IsBlank(lines[j])
  {
    FirstIndex(lines, IsNotBlank)
  }

  /** `preview` (line 19): the first line whose trim is not empty, or `''`
      when every line is blank. A non-blank line is never `''`, so `|| ''`
      only replaces "not found". */
  function Preview(content: string): (p: string)
    ensures p == "" ==> forall j | 0 <= j < |SplitLines(content)| :: IsBlank(SplitLines(content)[j])
    ensures (forall j | 0 <= j < |SplitLines(content)| :: IsBlank(SplitLines(content)[j])) ==> p == ""
    ensures p != "" ==> exists k | 0 <= k < |SplitLines(content)| ::
              SplitLines(content)[k] == p && !IsBlank(p) && forall j | 0 <= j < k :: IsBlank(SplitLines(content)[j])
  {
    var lines := SplitLines(content);
    match FirstNonBlank(lines)
    case None => ""
    case Some(k) => lines[k]
  }

  /** The characters `/[#*`]/g` matches. */
  predicate IsMarkdownMark(c: char) { c == '#' || c == '*' || c == '`' }

  predicate Kept(c: char) { !IsMarkdownMark(c) }

  /** `preview.replace(/[#*`]/g, '')` (line 61): no mark is left, the rest
      keeps its order, and every other character keeps every occurrence. */
  function StripMarks(p: string): (r: string)
    ensures forall i | 0 <= i < |r| :: !IsMarkdownMark(r[i])
    ensures IsSubsequence(r, p)
    ensures forall c :: multiset(r)[c] == if IsMarkdownMark(c) then 0 else multiset(p)[c]
  {
    FilterIsSubsequence(p, Kept);
    forall c ensures multiset(Filter(p, Kept))[c] == if IsMarkdownMark(c) then 0 else multiset(p)[c] {
      FilterCounts(p, Kept, c);
    }
    Filter(p, Kept)
  }

  /** The text of the card's paragraph. */
  function CardText(content: string): string
  {
    StripMarks(Preview(content))
  }

  /** Content whose lines are all blank shows an empty paragraph. */
  lemma {:induction false} BlankContentShowsNothing(content: string)
    requires forall i | 0 <= i < |content| :: IsWhitespace(content[i])
    ensures CardText(content) == ""
  {
    var lines := SplitLines(content);
    JoinSplit(content);
    forall j | 0 <= j < |lines| ensures IsBlank(lines[j]) {
      LineOfWhitespace(lines, j);
    }
  }

  /** Every character of a line is a character of the joined text. */
  lemma {:induction false} LineOfWhitespace(lines: seq<string>, j: nat)
    requires |lines| >= 1 && j < |lines|
    requires forall i | 0 <= i < |JoinLines(lines)| :: IsWhitespace(JoinLines(lines)[i])
    ensures forall i | 0 <= i < |lines[j]| :: IsWhitespace(lines[j][i])
  {
    if |lines| == 1 {
      assert JoinLines(lines) == lines[0];
    } else {
      var t := JoinLines(lines);
      assert t == lines[0] + "\n" + JoinLines(lines[1..]);
      if j == 0 {
        forall i | 0 <= i < |lines[0]| ensures IsWhitespace(lines[0][i]) {
          assert lines[0][i] == t[i];
        }
      } else {
        var u := JoinLines(lines[1..]);
        forall i | 0 <= i < |u| ensures IsWhitespace(u[i]) {
          assert u[i] == t[|lines[0]| + 1 + i];
        }
        LineOfWhitespace(lines[1..], j - 1);
        assert lines[1..][j - 1] == lines[j];
      }
    }
  }
}
