/** The statistics computed by `TextAnalyzer.analyze_text`: the words and
    letters of the content, their frequency tables, the word count, the
    average word length and the sentence count. Word and sentence
    segmentation belong to a natural-language tokenizer outside this model,
    so its results, the raw token sequence and the sentence list, are
    inputs here. */
module TextAnalyzer {
  import opened CharClass
  import opened Comprehension
  import opened Counter
  import opened Ranking

  /** The exception `analyze_text` can raise. */
  datatype Error = ZeroDivisionError

  datatype Result<T> = Ok(value: T) | Err(error: Error)

  /** An exact quotient `numerator / denominator`. */
  datatype Ratio = Ratio(numerator: nat, denominator: nat)

  /** The statistics part of the tuple `analyze_text` returns. */
  datatype Report = Report(
    totalWords: nat,
    wordFrequency: Table<string>,
    avgWordLength: Ratio,
    letterFrequency: Table<char>,
    totalSentences: nat)

  /** `get_letters`: every alphabetic character of the content, lower-cased. */
  function GetLetters(content: string): (r: seq<char>)
  {
    FilterMap(content, IsAlpha, Lower)
  }

  /** `re.match(r"\w+", token)` succeeds: the match is anchored at the start,
      so the first character must be a word character. */
  predicate IsWordToken(token: string)
  {
    |token| > 0 && IsWordChar(token[0])
  }

  /** `get_words`, given the tokenizer's output: the tokens that pass the
      match, lower-cased. */
  function GetWords(tokens: seq<string>): (r: seq<string>)
  {
    FilterMap(tokens, IsWordToken, LowerString)
  }

  /** `sum(len(word) for word in words)` */
  function SumLengths(words: seq<string>): nat
  {
    if words == [] then 0 else SumLengths(words[..|words| - 1]) + |words[|words| - 1]|
  }

  /** `sum(len(word) for word in words) / len(words)`, which raises
      `ZeroDivisionError` when there are no words. */
  function AverageWordLength(words: seq<string>): (r: Result<Ratio>)
    ensures r.Err? <==> words == []
    ensures r.Err? ==> r.error == ZeroDivisionError
    ensures r.Ok? ==> r.value.denominator == |words| > 0
  {
    if |words| == 0 then Err(ZeroDivisionError) else Ok(Ratio(SumLengths(words), |words|))
  }

  /** `analyze_text`, without the sentiment scores. */
  function AnalyzeText(content: string, tokens: seq<string>, sentences: seq<string>): (r: Result<Report>)
  {
    var words := GetWords(tokens);
    var letters := GetLetters(content);
    match AverageWordLength(words)
    case Err(e) => Err(e)
    case Ok(avg) => Ok(Report(|words|, Count(words), avg, Count(letters), |sentences|))
  }

  // ---------------------------------------------------------------------
  // Letters and words

  /** The letters are the lower-cased alphabetic characters of the content,
      one per alphabetic position, in source order, repeats kept. */
  lemma {:induction false} GetLettersSpec(content: string)
    ensures var p := KeptPositions(content, IsAlpha);
      && |GetLetters(content)| == |p|
      && StrictlyIncreasing(p)
      && (forall i :: 0 <= i < |content| ==> (IsAlpha(content[i]) <==> i in p))
      && (forall j :: 0 <= j < |p| ==> p[j] < |content| && GetLetters(content)[j] == Lower(content[p[j]]))
    ensures forall c :: c in GetLetters(content) ==> IsLowerCase(c)
  {
    FilterMapAt(content, IsAlpha, Lower);
    var p := KeptPositions(content, IsAlpha);
    forall c | c in GetLetters(content) ensures IsLowerCase(c) {
      var j :| 0 <= j < |GetLetters(content)| && GetLetters(content)[j] == c;
      assert IsAlpha(content[p[j]]);
    }
  }

  /** A token is kept exactly when its first character is a word character;
      the kept tokens are lower-cased, in order, duplicates kept. */
  lemma {:induction false} GetWordsSpec(tokens: seq<string>)
    ensures var p := KeptPositions(tokens, IsWordToken);
      && |GetWords(tokens)| == |p|
      && StrictlyIncreasing(p)
      && (forall i :: 0 <= i < |tokens| ==> (|tokens[i]| > 0 && IsWordChar(tokens[i][0]) <==> i in p))
      && (forall j :: 0 <= j < |p| ==> p[j] < |tokens| && GetWords(tokens)[j] == LowerString(tokens[p[j]]))
  {
    FilterMapAt(tokens, IsWordToken, LowerString);
  }

  /** The letters read from the front, one character at a time. */
  lemma GetLettersCons(c: char, rest: string)
    ensures GetLetters([c] + rest) == (if IsAlpha(c) then [Lower(c)] else []) + GetLetters(rest)
  {
    FilterMapCons(c, rest, IsAlpha, Lower);
  }

  /** The words read from the front, one token at a time. */
  lemma GetWordsCons(token: string, rest: seq<string>)
    ensures GetWords([token] + rest) == (if IsWordToken(token) then [LowerString(token)] else []) + GetWords(rest)
  {
    FilterMapCons(token, rest, IsWordToken, LowerString);
  }

  /** Every word is non-empty, starts with a word character and holds no
      upper-case letter. */
  lemma WordsWellFormed(tokens: seq<string>)
    ensures forall w :: w in GetWords(tokens) ==>
              |w| >= 1 && IsWordChar(w[0]) && forall k :: 0 <= k < |w| ==> !IsUpper(w[k])
  {
    FilterMapAt(tokens, IsWordToken, LowerString);
    var p := KeptPositions(tokens, IsWordToken);
    forall w | w in GetWords(tokens)
      ensures |w| >= 1 && IsWordChar(w[0]) && forall k :: 0 <= k < |w| ==> !IsUpper(w[k])
    {
      var j :| 0 <= j < |GetWords(tokens)| && GetWords(tokens)[j] == w;
      assert IsWordToken(tokens[p[j]]);
    }
  }

  /** Every word has at least one character, so the lengths add up to at
      least the number of words. */
  lemma {:induction false} SumLengthsAtLeastCount(words: seq<string>)
    requires forall w :: w in words ==> |w| >= 1
    ensures SumLengths(words) >= |words|
  {
    if words != [] {
      assert words[|words| - 1] in words;
      SumLengthsAtLeastCount(words[..|words| - 1]);
    }
  }

  /** The average word length is at least one whenever it is defined. */
  lemma AverageAtLeastOne(tokens: seq<string>)
    ensures var r := AverageWordLength(GetWords(tokens));
      r.Ok? ==> r.value.numerator >= r.value.denominator >= 1
  {
    WordsWellFormed(tokens);
    SumLengthsAtLeastCount(GetWords(tokens));
  }

  // ---------------------------------------------------------------------
  // analyze_text

  /** `analyze_text` raises `ZeroDivisionError` exactly when no token
      passes the word filter, in particular when there are no tokens. */
  lemma AnalyzeFailsIffNoWords(content: string, tokens: seq<string>, sentences: seq<string>)
    ensures AnalyzeText(content, tokens, sentences).Err? <==> forall i :: 0 <= i < |tokens| ==> !IsWordToken(tokens[i])
    ensures AnalyzeText(content, tokens, sentences).Err? ==> AnalyzeText(content, tokens, sentences).error == ZeroDivisionError
    ensures tokens == [] ==> AnalyzeText(content, tokens, sentences) == Err(ZeroDivisionError)
  {
    GetWordsSpec(tokens);
    var p := KeptPositions(tokens, IsWordToken);
    if p != [] {
      assert IsWordToken(tokens[p[0]]);
    }
  }

  /** What a successful `analyze_text` reports: the word count, frequency
      tables that count every word and every letter exactly, whose counts
      add up to the number of words and of letters, the average as total
      length over word count, and the sentence count. */
  lemma AnalyzeReport(content: string, tokens: seq<string>, sentences: seq<string>)
    requires AnalyzeText(content, tokens, sentences).Ok?
    ensures var rep, words, letters := AnalyzeText(content, tokens, sentences).value, GetWords(tokens), GetLetters(content);
      && rep.totalWords == |words| >= 1
      && Valid(rep.wordFrequency)
      && Total(rep.wordFrequency) == rep.totalWords
      && (forall w :: w in Keys(rep.wordFrequency) <==> w in words)
      && (forall w :: Get(rep.wordFrequency, w) == multiset(words)[w])
      && Valid(rep.letterFrequency)
      && Total(rep.letterFrequency) == |letters|
      && (forall c :: c in Keys(rep.letterFrequency) <==> c in letters)
      && (forall c :: Get(rep.letterFrequency, c) == multiset(letters)[c])
      && rep.avgWordLength == Ratio(SumLengths(words), rep.totalWords)
      && rep.avgWordLength.numerator >= rep.avgWordLength.denominator
      && rep.totalSentences == |sentences|
  {
    var words, letters := GetWords(tokens), GetLetters(content);
    CountValid(words);
    CountTotal(words);
    CountKeys(words);
    forall w ensures Get(Count(words), w) == multiset(words)[w] { CountGet(words, w); }
    CountValid(letters);
    CountTotal(letters);
    CountKeys(letters);
    forall c ensures Get(Count(letters), c) == multiset(letters)[c] { CountGet(letters, c); }
    AverageAtLeastOne(tokens);
  }
}
