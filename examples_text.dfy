/** Worked inputs for the analyzer, with the token and sentence lists a
    standard English tokenizer produces for them. */
module AnalyzerExamples {
  import opened CharClass
  import opened Counter
  import opened Ranking
  import opened TextAnalyzer

  lemma SecondSentenceWords()
    ensures GetWords(["Dogs", "run", "fast", "."]) == ["dogs", "run", "fast"]
  {
    assert GetWords(["."]) == [] by {
      GetWordsCons(".", []);
      assert ["."] == ["."] + [];
    }
    assert GetWords(["fast", "."]) == ["fast"] by {
      GetWordsCons("fast", ["."]);
      assert ["fast", "."] == ["fast"] + ["."];
      assert LowerString("fast") == "fast";
    }
    assert GetWords(["run", "fast", "."]) == ["run", "fast"] by {
      GetWordsCons("run", ["fast", "."]);
      assert ["run", "fast", "."] == ["run"] + ["fast", "."];
      assert LowerString("run") == "run";
    }
    assert GetWords(["Dogs", "run", "fast", "."]) == ["dogs", "run", "fast"] by {
      GetWordsCons("Dogs", ["run", "fast", "."]);
      assert ["Dogs", "run", "fast", "."] == ["Dogs"] + ["run", "fast", "."];
      assert LowerString("Dogs") == "dogs";
    }
  }

  /** The words of "Cats run. Dogs run fast.", whose tokens are
      Cats, run, ., Dogs, run, fast and the final full stop. */
  lemma CatsAndDogsWords()
    ensures GetWords(["Cats", "run", ".", "Dogs", "run", "fast", "."]) == ["cats", "run", "dogs", "run", "fast"]
  {
    SecondSentenceWords();
    assert GetWords([".", "Dogs", "run", "fast", "."]) == ["dogs", "run", "fast"] by {
      GetWordsCons(".", ["Dogs", "run", "fast", "."]);
      assert [".", "Dogs", "run", "fast", "."] == ["."] + ["Dogs", "run", "fast", "."];
    }
    assert GetWords(["run", ".", "Dogs", "run", "fast", "."]) == ["run", "dogs", "run", "fast"] by {
      GetWordsCons("run", [".", "Dogs", "run", "fast", "."]);
      assert ["run", ".", "Dogs", "run", "fast", "."] == ["run"] + [".", "Dogs", "run", "fast", "."];
      assert LowerString("run") == "run";
    }
    assert GetWords(["Cats", "run", ".", "Dogs", "run", "fast", "."]) == ["cats", "run", "dogs", "run", "fast"] by {
      GetWordsCons("Cats", ["run", ".", "Dogs", "run", "fast", "."]);
      assert ["Cats", "run", ".", "Dogs", "run", "fast", "."] == ["Cats"] + ["run", ".", "Dogs", "run", "fast", "."];
      assert LowerString("Cats") == "cats";
    }
  }

  /** "Cats run. Dogs run fast." has five words, "run" twice, two
      sentences, and average word length 18/5. */
  lemma CatsAndDogs()
    ensures var r := AnalyzeText("Cats run. Dogs run fast.",
                                 ["Cats", "run", ".", "Dogs", "run", "fast", "."],
                                 ["Cats run.", "Dogs run fast."]);
      && r.Ok?
      && r.value.totalWords == 5
      && Get(r.value.wordFrequency, "run") == 2
      && r.value.avgWordLength == Ratio(18, 5)
      && r.value.totalSentences == 2
  {
    CatsAndDogsWords();
    CatsAndDogsLengths();
    CatsAndDogsRuns();
  }

  lemma CatsAndDogsLengths()
    ensures SumLengths(["cats", "run", "dogs", "run", "fast"]) == 18
  {
    var w1: seq<string> := ["cats"];
    var w2, w3 := w1 + ["run"], w1 + ["run", "dogs"];
    var w4, w5 := w3 + ["run"], w3 + ["run", "fast"];
    assert w1[..0] == [] && w2[..1] == w1 && w3[..2] == w2 && w4[..3] == w3 && w5[..4] == w4;
    assert SumLengths(w1) == 4;
    assert SumLengths(w2) == 7;
    assert SumLengths(w3) == 11;
    assert SumLengths(w4) == 14;
    assert SumLengths(w5) == 18;
    assert w5 == ["cats", "run", "dogs", "run", "fast"];
  }

  lemma CatsAndDogsRuns()
    ensures Get(Count(["cats", "run", "dogs", "run", "fast"]), "run") == 2
  {
    var words: seq<string> := ["cats", "run", "dogs", "run", "fast"];
    CountGet(words, "run");
    assert words == ["cats"] + ["run"] + ["dogs"] + ["run"] + ["fast"];
    assert multiset(words) == multiset{"cats", "run", "dogs", "run", "fast"};
  }

  lemma LettersOfTwoBs()
    ensures GetLetters("bb") == "bb"
  {
    assert GetLetters("b") == "b" by { GetLettersCons('b', ""); assert "b" == ['b'] + ""; }
    assert GetLetters("bb") == "bb" by { GetLettersCons('b', "b"); assert "bb" == ['b'] + "b"; }
  }

  lemma LettersOfBs()
    ensures GetLetters(" bbbb") == "bbbb"
  {
    LettersOfTwoBs();
    assert GetLetters("bbb") == "bbb" by { GetLettersCons('b', "bb"); assert "bbb" == ['b'] + "bb"; }
    assert GetLetters("bbbb") == "bbbb" by { GetLettersCons('b', "bbb"); assert "bbbb" == ['b'] + "bbb"; }
    assert GetLetters(" bbbb") == "bbbb" by { GetLettersCons(' ', "bbbb"); assert " bbbb" == [' '] + "bbbb"; }
  }

  /** The letters of "AAAA bbbb". */
  lemma TiedLettersLetters()
    ensures GetLetters("AAAA bbbb") == "aaaabbbb"
  {
    LettersOfBs();
    assert GetLetters("A bbbb") == "abbbb" by { GetLettersCons('A', " bbbb"); assert "A bbbb" == ['A'] + " bbbb"; }
    assert GetLetters("AA bbbb") == "aabbbb" by { GetLettersCons('A', "A bbbb"); assert "AA bbbb" == ['A'] + "A bbbb"; }
    assert GetLetters("AAA bbbb") == "aaabbbb" by { GetLettersCons('A', "AA bbbb"); assert "AAA bbbb" == ['A'] + "AA bbbb"; }
    assert GetLetters("AAAA bbbb") == "aaaabbbb" by { GetLettersCons('A', "AAA bbbb"); assert "AAAA bbbb" == ['A'] + "AAA bbbb"; }
  }

  /** In "AAAA bbbb" both letters occur four times; the first one seen wins
      the tie for the top place. */
  lemma TiedLetters()
    ensures Count(GetLetters("AAAA bbbb")) == [Entry('a', 4), Entry('b', 4)]
    ensures MostCommon(Count(GetLetters("AAAA bbbb")), 1) == [Entry('a', 4)]
  {
    TiedLettersLetters();
    TiedLettersCount();
    var t := [Entry('a', 4), Entry('b', 4)];
    assert SortByCount(t) == t by {
      assert t[1..] == [Entry('b', 4)];
      assert SortByCount([Entry('b', 4)]) == [Entry('b', 4)];
    }
  }

  lemma CountOfAs()
    ensures Count("aaaa") == [Entry('a', 4)]
  {
    assert Count("a") == [Entry('a', 1)] by { CountSnoc("", 'a'); assert "a" == "" + ['a']; }
    assert Count("aa") == [Entry('a', 2)] by { CountSnoc("a", 'a'); assert "aa" == "a" + ['a']; }
    assert Count("aaa") == [Entry('a', 3)] by { CountSnoc("aa", 'a'); assert "aaa" == "aa" + ['a']; }
    assert Count("aaaa") == [Entry('a', 4)] by { CountSnoc("aaa", 'a'); assert "aaaa" == "aaa" + ['a']; }
  }

  lemma TiedLettersCount()
    ensures Count("aaaabbbb") == [Entry('a', 4), Entry('b', 4)]
  {
    CountOfAs();
    assert Count("aaaab") == [Entry('a', 4), Entry('b', 1)] by { CountSnoc("aaaa", 'b'); assert "aaaab" == "aaaa" + ['b']; }
    assert Count("aaaabb") == [Entry('a', 4), Entry('b', 2)] by { CountSnoc("aaaab", 'b'); assert "aaaabb" == "aaaab" + ['b']; }
    assert Count("aaaabbb") == [Entry('a', 4), Entry('b', 3)] by { CountSnoc("aaaabb", 'b'); assert "aaaabbb" == "aaaabb" + ['b']; }
    assert Count("aaaabbbb") == [Entry('a', 4), Entry('b', 4)] by { CountSnoc("aaaabbb", 'b'); assert "aaaabbbb" == "aaaabbb" + ['b']; }
  }

  /** "'s" does not start with a word character and is dropped; "n't" does
      and is kept. */
  lemma Contractions()
    ensures GetWords(["It", "'s", "n't", "--"]) == ["it", "n't"]
  {
    assert GetWords(["--"]) == [] by {
      GetWordsCons("--", []);
      assert ["--"] == ["--"] + [];
    }
    assert GetWords(["n't", "--"]) == ["n't"] by {
      GetWordsCons("n't", ["--"]);
      assert ["n't", "--"] == ["n't"] + ["--"];
      assert LowerString("n't") == "n't";
    }
    assert GetWords(["'s", "n't", "--"]) == ["n't"] by {
      GetWordsCons("'s", ["n't", "--"]);
      assert ["'s", "n't", "--"] == ["'s"] + ["n't", "--"];
    }
    assert GetWords(["It", "'s", "n't", "--"]) == ["it", "n't"] by {
      GetWordsCons("It", ["'s", "n't", "--"]);
      assert ["It", "'s", "n't", "--"] == ["It"] + ["'s", "n't", "--"];
      assert LowerString("It") == "it";
    }
  }

  /** Empty content gives no tokens, and the average is a division by zero. */
  lemma EmptyContent()
    ensures AnalyzeText("", [], []) == Err(ZeroDivisionError)
  {
  }
}
