/** A worked example of `createSlug`: punctuation and an emoji vanish, the
    space between the words becomes a hyphen and the date is zero-padded. */
module SlugExample {
  import opened Seqs
  import opened Text
  import opened Posts
  import opened Slug

  predicate IsAsciiLetter(c: char) { 'A' <= c <= 'Z' || 'a' <= c <= 'z' }

  lemma {:induction false} LetterIsOrdinary(c: char)
    requires IsAsciiLetter(c)
    ensures IsAllowed(c) && !IsSeparator(c)
  {
  }

  /** A word of ASCII letters passes the blacklist whole. */
  lemma {:induction false} LettersKept(s: string)
    requires forall i | 0 <= i < |s| :: IsAsciiLetter(s[i])
    ensures StripBlacklisted(s) == s
  {
    forall i | 0 <= i < |s| ensures IsAllowed(s[i]) {
      LetterIsOrdinary(s[i]);
    }
    FilterAllPass(s, IsAllowed);
  }

  lemma {:induction false} LetterWords()
    ensures forall i | 0 <= i < |"Hello"| :: IsAsciiLetter("Hello"[i]) && !IsSeparator("Hello"[i])
    ensures forall i | 0 <= i < |"World"| :: IsAsciiLetter("World"[i]) && !IsSeparator("World"[i])
  {
    forall i | 0 <= i < |"Hello"| ensures !IsSeparator("Hello"[i]) {
      LetterIsOrdinary("Hello"[i]);
    }
    forall i | 0 <= i < |"World"| ensures !IsSeparator("World"[i]) {
      LetterIsOrdinary("World"[i]);
    }
  }

  lemma {:induction false} WordsKept()
    ensures StripBlacklisted("Hello") == "Hello" && StripBlacklisted("World") == "World"
  {
    LetterWords();
    LettersKept("Hello");
    LettersKept("World");
  }

  lemma {:induction false} SpaceKept()
    ensures StripBlacklisted([' ']) == [' ']
  {
    FilterCons(' ', [], IsAllowed);
  }

  lemma {:induction false} MarksDropped()
    ensures StripBlacklisted([',']) == [] && StripBlacklisted(['!']) == [] && StripBlacklisted(['\U{1F389}']) == []
  {
    FilterCons(',', [], IsAllowed);
    FilterCons('!', [], IsAllowed);
    FilterCons('\U{1F389}', [], IsAllowed);
  }

  lemma {:induction false} TitleLayout()
    ensures "Hello, World! \U{1F389}" == "Hello" + [','] + [' '] + "World" + ['!'] + [' '] + ['\U{1F389}']
    ensures "Hello World " == "Hello" + [' '] + "World" + [' ']
  {
  }

  lemma {:induction false} WordsLayout()
    ensures "Hello World " == "Hello" + [' '] + ("World" + [' '] + [])
  {
  }

  /** The blacklist leaves the two words and the two spaces. */
  lemma {:induction false} StripExample()
    ensures StripBlacklisted("Hello, World! \U{1F389}") == "Hello World "
  {
    TitleLayout();
    var a, b := "Hello", "World";
    var p1 := a + [','];
    var p2 := p1 + [' '];
    var p3 := p2 + b;
    var p4 := p3 + ['!'];
    var p5 := p4 + [' '];
    WordsKept();
    SpaceKept();
    MarksDropped();
    FilterConcat(a, [','], IsAllowed);
    assert StripBlacklisted(p1) == a;
    FilterConcat(p1, [' '], IsAllowed);
    assert StripBlacklisted(p2) == a + [' '];
    FilterConcat(p2, b, IsAllowed);
    assert StripBlacklisted(p3) == a + [' '] + b;
    FilterConcat(p3, ['!'], IsAllowed);
    assert StripBlacklisted(p4) == a + [' '] + b;
    FilterConcat(p4, [' '], IsAllowed);
    assert StripBlacklisted(p5) == a + [' '] + b + [' '];
    FilterConcat(p5, ['\U{1F389}'], IsAllowed);
    assert StripBlacklisted(p5 + ['\U{1F389}']) == a + [' '] + b + [' '];
  }

  lemma {:induction false} WordsExample()
    ensures Words("Hello World ") == ["Hello", "World"]
  {
    WordsLayout();
    LetterWords();
    WordThenSeparator("Hello", ' ', "World" + [' '] + [], []);
    WordThenSeparator("World", ' ', [], []);
    assert [] + "Hello" == "Hello" && [] + "World" == "World";
  }

  lemma {:induction false} ShowExample()
    ensures Show(5) == "5" && Show(3) == "3" && Show(2024) == "2024"
  {
    assert DigitChar(5) == '5' && DigitChar(3) == '3';
    assert Show(2) == "2" by { assert DigitChar(2) == '2'; }
    assert Show(20) == "20" by { assert DigitChar(0) == '0'; }
    assert Show(202) == "202" by { assert DigitChar(2) == '2'; }
    assert Show(2024) == "2024" by { assert DigitChar(4) == '4'; }
  }

  lemma {:induction false} PadExample()
    ensures Pad(5, 2) == "05" && Pad(3, 2) == "03" && Pad(2024, 4) == "2024"
  {
    ShowExample();
    assert Zeros(1) == "0";
  }

  lemma {:induction false} Concatenated()
    ensures "Hello" + "-" + "World" + "-" + "05" + "-" + "03" + "-" + "2024" == "Hello-World-05-03-2024"
  {
  }

  /** `createSlug('Hello, World! 🎉', 5 March 2024)` is `Hello-World-05-03-2024`. */
  lemma {:induction false} HelloWorldSlug()
    ensures CreateSlug("Hello, World! \U{1F389}", CalendarDate(2024, 3, 5)) == "Hello-World-05-03-2024"
  {
    TitlePartIsJoinedWords("Hello, World! \U{1F389}");
    StripExample();
    WordsExample();
    assert JoinHyphens(["Hello", "World"]) == "Hello" + "-" + "World";
    PadExample();
    Concatenated();
  }
}
