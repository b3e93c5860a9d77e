/** Worked cases of `clean_data`: a tweet that cleans to nothing keeps its
    empty line between two others, and is stripped away at either end. */
module CorpusCases {
  import opened Strings
  import opened Cleaner
  import opened Preprocessing
  import CleanerCases

  /** A list of three lines is decided line by line. */
  lemma ThreeLines(lines: seq<string>, a: string, b: string, c: string)
    requires |lines| == 3 && lines[0] == a && lines[1] == b && lines[2] == c
    ensures lines == [a, b, c]
  {
  }

  lemma MiddleCleaned(tweets: seq<string>)
    requires tweets == ["#cool", "123", "a#b"]
    ensures CleanAll(tweets) == ["cool", "", "ab"]
  {
    CleanerCases.Hashtag();
    CleanerCases.Number();
    CleanerCases.HashtagFuses();
    CleanAllAt(tweets, 0);
    CleanAllAt(tweets, 1);
    CleanAllAt(tweets, 2);
    ThreeLines(CleanAll(tweets), "cool", "", "ab");
  }

  lemma MiddleJoined()
    ensures Join(["cool", "", "ab"], "\n") == "cool\n\nab"
  {
  }

  lemma MiddleEnds(tweets: seq<string>)
    requires tweets == ["#cool", "123", "a#b"]
    ensures CleanTweet(tweets[0]) != [] && CleanTweet(tweets[|tweets| - 1]) != []
  {
    CleanerCases.Hashtag();
    CleanerCases.HashtagFuses();
  }

  /** An empty cleaned tweet between two others leaves two newlines in a row. */
  lemma EmptyTweetInTheMiddle()
    ensures Corpus(["#cool", "123", "a#b"]) == "cool\n\nab"
  {
    var tweets := ["#cool", "123", "a#b"];
    MiddleEnds(tweets);
    CorpusKeepsInnerLines(tweets);
    MiddleCleaned(tweets);
    MiddleJoined();
  }

  lemma TwoLines(lines: seq<string>, a: string, b: string)
    requires |lines| == 2 && lines[0] == a && lines[1] == b
    ensures lines == [a, b]
  {
  }

  lemma FrontCleaned(tweets: seq<string>)
    requires tweets == ["123", "#cool"]
    ensures CleanAll(tweets) == ["", "cool"]
  {
    CleanerCases.Number();
    CleanerCases.Hashtag();
    CleanAllAt(tweets, 0);
    CleanAllAt(tweets, 1);
    TwoLines(CleanAll(tweets), "", "cool");
  }

  lemma FrontTrimmed()
    ensures TrimEmpty(["", "cool"]) == ["cool"]
  {
    var lines: seq<string> := ["", "cool"];
    assert LeadingEmpty(lines) == 1;
    assert lines[1..] == ["cool"];
  }

  lemma OneLineJoined()
    ensures Join(["cool"], "\n") == "cool"
  {
  }

  /** A tweet that cleans to nothing at the start leaves no line: `strip`
      removes its newline. */
  lemma EmptyTweetAtTheStart()
    ensures Corpus(["123", "#cool"]) == "cool"
  {
    var tweets := ["123", "#cool"];
    CorpusIsTrimmedJoin(tweets);
    FrontCleaned(tweets);
    FrontTrimmed();
    OneLineJoined();
  }
}
