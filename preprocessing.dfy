/** The module-level functions of the preprocessing code: `clean_data`,
    which cleans every tweet and gathers the results into one text, one
    line per tweet, and the two entry points that feed it from a snapshot,
    all trends at once or trend by trend. */
module Preprocessing {
  import opened Strings
  import opened Cleaner
  import opened Loader

  /** `[f(x) for x in xs]`. */
  function MapEach(f: string -> string, xs: seq<string>): seq<string> {
    seq(|xs|, i requires 0 <= i < |xs| => f(xs[i]))
  }

  /** Every tweet cleaned, in order. */
  function CleanAll(tweets: seq<string>): seq<string> {
    MapEach(CleanTweet, tweets)
  }

  /** The text `clean_data` returns: the cleaned tweets joined by newlines,
      stripped at both ends. */
  function Corpus(tweets: seq<string>): string {
    Strip(Join(CleanAll(tweets), "\n"))
  }

  /** `clean_data`: cleans the tweets one by one, then joins and strips. */
  method CleanData(tweets: seq<string>) returns (cleanedData: string)
    ensures cleanedData == Corpus(tweets)
  {
    var cleanedTweets: seq<string> := [];
    for i := 0 to |tweets|
      invariant cleanedTweets == CleanAll(tweets[..i])
    {
      var cleanedTweet := CleanTweet(tweets[i]);
      cleanedTweets := cleanedTweets + [cleanedTweet];
      MapEachSnoc(CleanTweet, tweets, i);
    }
    MapEachWhole(CleanTweet, tweets);
    cleanedData := Strip(Join(cleanedTweets, "\n"));
  }

  /** One more element adds its image at the end. */
  lemma MapEachSnoc(f: string -> string, xs: seq<string>, i: nat)
    requires i < |xs|
    ensures MapEach(f, xs[..i + 1]) == MapEach(f, xs[..i]) + [f(xs[i])]
  {
    var longer := MapEach(f, xs[..i + 1]);
    var shorter := MapEach(f, xs[..i]);
    forall k | 0 <= k < |longer| ensures longer[k] == (shorter + [f(xs[i])])[k] {
      if k < i {
        assert xs[..i + 1][k] == xs[..i][k];
      }
    }
  }

  lemma MapEachWhole(f: string -> string, xs: seq<string>)
    ensures MapEach(f, xs[..|xs|]) == MapEach(f, xs)
  {
    assert xs[..|xs|] == xs;
  }

  /** `prepare_data_all_in_one`: every trend's tweets in one list, cleaned
      into one text. */
  method PrepareDataAllInOne(data: Snapshot) returns (cleanedData: string)
    ensures cleanedData == Corpus(Flatten(TweetLists(data)))
  {
    var textData := LoadAllInOne(data);
    cleanedData := CleanData(textData);
  }

  /** `prepare_data_by_trends`: one cleaned text per trend, under the
      trend's name; a trend whose text cleans to nothing is kept. */
  method PrepareDataByTrends(textData: Snapshot) returns (cleanedData: map<string, string>)
    ensures cleanedData.Keys == Names(textData)
    ensures |cleanedData| == |textData|
    ensures forall i | 0 <= i < |textData| :: cleanedData[textData[i].name] == Corpus(textData[i].tweets)
  {
    cleanedData := map[];
    for k := 0 to |textData|
      invariant cleanedData.Keys == Names(textData[..k])
      invariant forall i | 0 <= i < k :: cleanedData[textData[i].name] == Corpus(textData[i].tweets)
    {
      var trend := textData[k].name;
      var corpus := CleanData(textData[k].tweets);
      cleanedData := cleanedData[trend := corpus];
      NamesOfLongerPrefix(textData, k);
    }
    assert textData[..|textData|] == textData;
    NamesCount(textData);
  }

  // ---------------------------------------------------------------------------
  // What `strip` removes from the joined lines
  // ---------------------------------------------------------------------------

  /** How many empty lines the lines start with. */
  function LeadingEmpty(lines: seq<string>): (n: nat)
    ensures n <= |lines|
    ensures forall i | 0 <= i < n :: lines[i] == []
    ensures n == |lines| || lines[n] != []
    decreases |lines|
  {
    if lines != [] && lines[0] == [] then 1 + LeadingEmpty(lines[1..]) else 0
  }

  /** How many empty lines the lines end with. */
  function TrailingEmpty(lines: seq<string>): (n: nat)
    ensures n <= |lines|
    ensures forall i | |lines| - n <= i < |lines| :: lines[i] == []
    ensures n == |lines| || lines[|lines| - 1 - n] != []
    decreases |lines|
  {
    if lines != [] && lines[|lines| - 1] == [] then 1 + TrailingEmpty(lines[..|lines| - 1]) else 0
  }

  /** The lines from the first non-empty one on. */
  function WithoutLeadingEmpty(lines: seq<string>): seq<string> {
    lines[LeadingEmpty(lines)..]
  }

  /** The lines up to the last non-empty one. */
  function WithoutTrailingEmpty(lines: seq<string>): seq<string> {
    lines[..|lines| - TrailingEmpty(lines)]
  }

  /** The lines without the empty ones at either end. */
  function TrimEmpty(lines: seq<string>): seq<string> {
    WithoutTrailingEmpty(WithoutLeadingEmpty(lines))
  }

  predicate AllTrimmed(lines: seq<string>) {
    forall k | 0 <= k < |lines| :: Trimmed(lines[k])
  }

  lemma CanonicalIsTrimmed(t: string)
    requires Canonical(t)
    ensures Trimmed(t)
  {
  }

  lemma CleanAllTrimmed(tweets: seq<string>)
    ensures AllTrimmed(CleanAll(tweets))
  {
    forall k | 0 <= k < |tweets| ensures Trimmed(CleanAll(tweets)[k]) {
      CleanTweetIsCanonical(tweets[k]);
      CanonicalIsTrimmed(CleanTweet(tweets[k]));
    }
  }

  /** A join that starts with a non-empty line starts with that line's first character. */
  lemma JoinStartsWithFirstLine(lines: seq<string>)
    requires lines != [] && lines[0] != []
    ensures var s := Join(lines, "\n"); s != [] && s[0] == lines[0][0]
  {
    if |lines| > 1 {
      assert Join(lines, "\n") == lines[0] + "\n" + Join(lines[1..], "\n");
    }
  }

  lemma StripLeftSkipsNewline(t: string)
    ensures StripLeft("\n" + t) == StripLeft(t)
  {
    var s := "\n" + t;
    StripLeftSkipsWhitespace(s);
    assert s[1..] == t;
  }

  lemma StripRightSkipsNewline(t: string)
    ensures StripRight(t + "\n") == StripRight(t)
  {
    var s := t + "\n";
    StripRightSkipsWhitespace(s);
    assert s[..|s| - 1] == t;
  }

  /** `lstrip` of the joined lines removes exactly the newlines of the
      empty lines in front. */
  lemma {:induction false} StripLeftJoin(lines: seq<string>)
    requires AllTrimmed(lines)
    ensures StripLeft(Join(lines, "\n")) == Join(WithoutLeadingEmpty(lines), "\n")
    decreases |lines|
  {
    if lines == [] {
    } else if lines[0] != [] {
      StripLeftKeepsNonEmptyFirst(lines);
    } else if |lines| == 1 {
      StripLeftOfOneEmptyLine(lines);
    } else {
      TrimmedStretch(lines, 1);
      StripLeftJoin(lines[1..]);
      StripLeftDropsEmptyFirst(lines);
    }
  }

  /** A non-empty trimmed first line leaves nothing for `lstrip` to remove. */
  lemma StripLeftKeepsNonEmptyFirst(lines: seq<string>)
    requires lines != [] && lines[0] != [] && Trimmed(lines[0])
    ensures StripLeft(Join(lines, "\n")) == Join(WithoutLeadingEmpty(lines), "\n")
  {
    JoinStartsWithFirstLine(lines);
    StripLeftOfNonBlankStart(Join(lines, "\n"));
    LeadingEmptyOfNonEmptyFirst(lines);
  }

  lemma LeadingEmptyOfNonEmptyFirst(lines: seq<string>)
    requires lines != [] && lines[0] != []
    ensures WithoutLeadingEmpty(lines) == lines
  {
    assert lines[0..] == lines;
  }

  lemma StripLeftOfOneEmptyLine(lines: seq<string>)
    requires |lines| == 1 && lines[0] == []
    ensures StripLeft(Join(lines, "\n")) == Join(WithoutLeadingEmpty(lines), "\n")
  {
    assert lines[1..] == [];
  }

  /** An empty first line adds one newline, which `lstrip` removes. */
  lemma StripLeftDropsEmptyFirst(lines: seq<string>)
    requires |lines| > 1 && lines[0] == []
    requires StripLeft(Join(lines[1..], "\n")) == Join(WithoutLeadingEmpty(lines[1..]), "\n")
    ensures StripLeft(Join(lines, "\n")) == Join(WithoutLeadingEmpty(lines), "\n")
  {
    JoinOfEmptyFirst(lines);
    StripLeftSkipsNewline(Join(lines[1..], "\n"));
    LeadingEmptyOfEmptyFirst(lines);
  }

  lemma JoinOfEmptyFirst(lines: seq<string>)
    requires |lines| > 1 && lines[0] == []
    ensures Join(lines, "\n") == "\n" + Join(lines[1..], "\n")
  {
  }

  lemma LeadingEmptyOfEmptyFirst(lines: seq<string>)
    requires lines != [] && lines[0] == []
    ensures WithoutLeadingEmpty(lines) == WithoutLeadingEmpty(lines[1..])
  {
    var rest := lines[1..];
    assert rest[LeadingEmpty(rest)..] == lines[1 + LeadingEmpty(rest)..];
  }

  /** A join that ends with a non-empty line ends with that line's last character. */
  lemma JoinEndsWithLastLine(init: seq<string>, last: string)
    requires last != []
    ensures var s := Join(init + [last], "\n"); s != [] && s[|s| - 1] == last[|last| - 1]
  {
    JoinSnoc(init, last, "\n");
  }

  /** An empty last line adds one newline, which `rstrip` removes. */
  lemma StripRightDropsEmptyLast(init: seq<string>)
    requires init != []
    requires StripRight(Join(init, "\n")) == Join(WithoutTrailingEmpty(init), "\n")
    ensures var lines := init + [[]];
      StripRight(Join(lines, "\n")) == Join(WithoutTrailingEmpty(lines), "\n")
  {
    var lines := init + [[]];
    JoinOfEmptyLast(init);
    StripRightSkipsNewline(Join(init, "\n"));
    TrailingEmptyOfEmptyLast(init);
  }

  lemma JoinOfEmptyLast(init: seq<string>)
    requires init != []
    ensures Join(init + [[]], "\n") == Join(init, "\n") + "\n"
  {
    JoinSnoc(init, [], "\n");
  }

  lemma TrailingEmptyOfEmptyLast(init: seq<string>)
    ensures var lines := init + [[]];
      WithoutTrailingEmpty(lines) == WithoutTrailingEmpty(init)
  {
    var lines := init + [[]];
    assert lines[..|lines| - 1] == init;
  }

  /** A non-empty trimmed last line leaves nothing for `rstrip` to remove. */
  lemma StripRightKeepsNonEmptyLast(lines: seq<string>)
    requires lines != [] && lines[|lines| - 1] != [] && Trimmed(lines[|lines| - 1])
    ensures StripRight(Join(lines, "\n")) == Join(WithoutTrailingEmpty(lines), "\n")
  {
    JoinEndsWithNonBlank(lines);
    StripRightOfNonBlankEnd(Join(lines, "\n"));
    TrailingEmptyOfNonEmptyLast(lines);
  }

  lemma JoinEndsWithNonBlank(lines: seq<string>)
    requires lines != [] && lines[|lines| - 1] != [] && Trimmed(lines[|lines| - 1])
    ensures var s := Join(lines, "\n"); s != [] && !IsWhitespace(s[|s| - 1])
  {
    var init := lines[..|lines| - 1];
    var last := lines[|lines| - 1];
    assert lines == init + [last];
    JoinEndsWithLastLine(init, last);
  }

  lemma TrailingEmptyOfNonEmptyLast(lines: seq<string>)
    requires lines != [] && lines[|lines| - 1] != []
    ensures WithoutTrailingEmpty(lines) == lines
  {
    assert lines[..|lines|] == lines;
  }

  /** `rstrip` of the joined lines removes exactly the newlines of the
      empty lines at the end. */
  lemma {:induction false} StripRightJoin(lines: seq<string>)
    requires AllTrimmed(lines)
    ensures StripRight(Join(lines, "\n")) == Join(WithoutTrailingEmpty(lines), "\n")
    decreases |lines|
  {
    if lines != [] {
      var init := lines[..|lines| - 1];
      if lines[|lines| - 1] != [] {
        StripRightKeepsNonEmptyLast(lines);
      } else if init == [] {
        StripRightOfOneEmptyLine(lines);
      } else {
        TrimmedStretchBefore(lines, |lines| - 1);
        StripRightJoin(init);
        EndsWithEmptyLine(lines);
        StripRightDropsEmptyLast(init);
      }
    }
  }

  lemma StripRightOfOneEmptyLine(lines: seq<string>)
    requires |lines| == 1 && lines[0] == []
    ensures StripRight(Join(lines, "\n")) == Join(WithoutTrailingEmpty(lines), "\n")
  {
    assert lines[..|lines| - 1] == [];
  }

  lemma EndsWithEmptyLine(lines: seq<string>)
    requires lines != [] && lines[|lines| - 1] == []
    ensures lines == lines[..|lines| - 1] + [[]]
  {
  }

  lemma TrimmedStretchBefore(lines: seq<string>, to: nat)
    requires to <= |lines| && AllTrimmed(lines)
    ensures AllTrimmed(lines[..to])
  {
  }

  lemma TrimmedStretch(lines: seq<string>, from: nat)
    requires from <= |lines| && AllTrimmed(lines)
    ensures AllTrimmed(lines[from..])
  {
    var part := lines[from..];
    forall k | 0 <= k < |part| ensures Trimmed(part[k]) {
      assert part[k] == lines[from + k];
    }
  }

  /** `strip` of lines joined by newlines removes exactly the newlines of
      the empty lines at either end. */
  lemma StripJoinedLines(lines: seq<string>)
    requires AllTrimmed(lines)
    ensures Strip(Join(lines, "\n")) == Join(TrimEmpty(lines), "\n")
  {
    var front := WithoutLeadingEmpty(lines);
    StripLeftJoin(lines);
    FrontTrimmed(lines);
    StripRightJoin(front);
    StripInTwo(Join(lines, "\n"), Join(front, "\n"), Join(TrimEmpty(lines), "\n"));
  }

  lemma FrontTrimmed(lines: seq<string>)
    requires AllTrimmed(lines)
    ensures AllTrimmed(WithoutLeadingEmpty(lines))
  {
    TrimmedStretch(lines, LeadingEmpty(lines));
  }

  lemma StripInTwo(s: string, middle: string, stripped: string)
    requires StripLeft(s) == middle && StripRight(middle) == stripped
    ensures Strip(s) == stripped
  {
  }

  /** `strip` removes only the newlines that empty cleaned tweets leave at
      either end: an empty cleaned tweet between two others still leaves
      its line. */
  lemma CorpusIsTrimmedJoin(tweets: seq<string>)
    ensures Corpus(tweets) == Join(TrimEmpty(CleanAll(tweets)), "\n")
  {
    CleanAllTrimmed(tweets);
    StripJoinedLines(CleanAll(tweets));
  }

  /** No line holds a newline character. */
  predicate NoNewline(lines: seq<string>) {
    forall k, i | 0 <= k < |lines| && 0 <= i < |lines[k]| :: lines[k][i] != '\n'
  }

  /** No cleaned tweet holds a newline. */
  lemma CleanAllHasNoNewline(tweets: seq<string>)
    ensures NoNewline(CleanAll(tweets))
  {
    forall k | 0 <= k < |tweets| {
      CleanTweetIsCanonical(tweets[k]);
    }
  }

  lemma JoinOfNonEmptyFirst(lines: seq<string>)
    requires lines != [] && lines[0] != []
    ensures Join(lines, "\n") != []
  {
    JoinStartsWithFirstLine(lines);
  }

  lemma TrimEmptyKeepsNoNewline(lines: seq<string>)
    requires NoNewline(lines)
    ensures NoNewline(TrimEmpty(lines))
  {
    var front := lines[LeadingEmpty(lines)..];
    NoNewlineInStretch(lines, LeadingEmpty(lines), |lines|);
    assert front == lines[LeadingEmpty(lines)..|lines|];
    NoNewlineInStretch(front, 0, |front| - TrailingEmpty(front));
  }

  lemma NoNewlineInStretch(lines: seq<string>, from: nat, to: nat)
    requires from <= to <= |lines| && NoNewline(lines)
    ensures NoNewline(lines[from..to])
  {
    var part := lines[from..to];
    forall k, i | 0 <= k < |part| && 0 <= i < |part[k]| ensures part[k][i] != '\n' {
      assert part[k] == lines[from + k];
    }
  }

  lemma TrimEmptyStartsNonEmpty(lines: seq<string>)
    ensures TrimEmpty(lines) == [] || TrimEmpty(lines)[0] != []
  {
    var front := lines[LeadingEmpty(lines)..];
    var kept := front[..|front| - TrailingEmpty(front)];
    if kept != [] {
      assert kept[0] == front[0] == lines[LeadingEmpty(lines)];
    }
  }

  /** Stripping the joined lines gives the empty text exactly when every
      line is empty; otherwise splitting it at its newlines gives back the
      lines from the first non-empty one to the last. */
  lemma StrippedLines(lines: seq<string>)
    requires AllTrimmed(lines) && NoNewline(lines)
    ensures Strip(Join(lines, "\n")) == [] <==> TrimEmpty(lines) == []
    ensures TrimEmpty(lines) != [] ==> Split(Strip(Join(lines, "\n")), '\n') == TrimEmpty(lines)
  {
    var kept := TrimEmpty(lines);
    StripJoinedLines(lines);
    if kept != [] {
      TrimEmptyStartsNonEmpty(lines);
      JoinOfNonEmptyFirst(kept);
      TrimEmptyKeepsNoNewline(lines);
      SplitJoin(kept, '\n');
    }
  }

  /** The corpus is empty exactly when every tweet cleans to nothing, and
      otherwise splitting it at its newlines gives back the cleaned tweets,
      in order, from the first non-empty one to the last. */
  lemma CorpusLines(tweets: seq<string>)
    ensures Corpus(tweets) == [] <==> TrimEmpty(CleanAll(tweets)) == []
    ensures TrimEmpty(CleanAll(tweets)) != [] ==> Split(Corpus(tweets), '\n') == TrimEmpty(CleanAll(tweets))
  {
    CleanAllTrimmed(tweets);
    CleanAllHasNoNewline(tweets);
    StrippedLines(CleanAll(tweets));
  }

  lemma StripOfOneLine(line: string)
    requires Trimmed(line)
    ensures Strip(Join([line], "\n")) == line
  {
    StripKeepsTrimmed(line);
  }

  lemma CleanAllOfOne(tweet: string)
    ensures CleanAll([tweet]) == [CleanTweet(tweet)]
  {
    var lines := CleanAll([tweet]);
    assert |lines| == 1;
    assert lines[0] == CleanTweet(tweet);
  }

  lemma CleanTweetIsTrimmed(tweet: string)
    ensures Trimmed(CleanTweet(tweet))
  {
    CleanTweetIsCanonical(tweet);
    CanonicalIsTrimmed(CleanTweet(tweet));
  }

  /** No tweets give the empty text. */
  lemma CorpusOfNoTweets()
    ensures Corpus([]) == ""
  {
    assert CleanAll([]) == [];
  }

  /** One tweet gives its cleaned text: there is nothing to strip. */
  lemma CorpusOfOneTweet(tweet: string)
    ensures Corpus([tweet]) == CleanTweet(tweet)
  {
    CleanAllOfOne(tweet);
    CleanTweetIsTrimmed(tweet);
    StripOfOneLine(CleanTweet(tweet));
  }

  /** Lines that start and end with non-empty ones lose nothing to trimming. */
  lemma TrimEmptyKeepsLines(lines: seq<string>)
    requires lines != [] && lines[0] != [] && lines[|lines| - 1] != []
    ensures TrimEmpty(lines) == lines
  {
    assert LeadingEmpty(lines) == 0;
    assert lines[0..] == lines;
    assert TrailingEmpty(lines) == 0;
    assert lines[..|lines|] == lines;
  }

  /** When the first and the last tweet clean to something, `strip` removes
      nothing: tweets between them that clean to nothing keep their
      (empty) lines. */
  lemma CorpusKeepsInnerLines(tweets: seq<string>)
    requires tweets != [] && CleanTweet(tweets[0]) != [] && CleanTweet(tweets[|tweets| - 1]) != []
    ensures Corpus(tweets) == Join(CleanAll(tweets), "\n")
  {
    var last := |tweets| - 1;
    CleanAllAt(tweets, 0);
    CleanAllAt(tweets, last);
    CorpusIsTrimmedJoin(tweets);
    TrimEmptyKeepsLines(CleanAll(tweets));
  }

  lemma MapEachAt(f: string -> string, xs: seq<string>, i: nat)
    requires i < |xs|
    ensures |MapEach(f, xs)| == |xs| && MapEach(f, xs)[i] == f(xs[i])
  {
  }

  lemma CleanAllAt(tweets: seq<string>, i: nat)
    requires i < |tweets|
    ensures |CleanAll(tweets)| == |tweets| && CleanAll(tweets)[i] == CleanTweet(tweets[i])
  {
    MapEachAt(CleanTweet, tweets, i);
  }

  // ---------------------------------------------------------------------------
  // All trends at once
  // ---------------------------------------------------------------------------

  /** Each list of tweets cleaned on its own. */
  function CleanEach(lists: seq<seq<string>>): seq<seq<string>> {
    seq(|lists|, i requires 0 <= i < |lists| => CleanAll(lists[i]))
  }

  lemma MapEachAppend(f: string -> string, a: seq<string>, b: seq<string>)
    ensures MapEach(f, a + b) == MapEach(f, a) + MapEach(f, b)
  {
    var whole := MapEach(f, a + b);
    var parts := MapEach(f, a) + MapEach(f, b);
    forall i | 0 <= i < |whole| ensures whole[i] == parts[i] {
      if i < |a| {
        assert (a + b)[i] == a[i];
      } else {
        assert (a + b)[i] == b[i - |a|];
      }
    }
  }

  lemma CleanAllAppend(a: seq<string>, b: seq<string>)
    ensures CleanAll(a + b) == CleanAll(a) + CleanAll(b)
  {
    MapEachAppend(CleanTweet, a, b);
  }

  /** Cleaning the flattened lists is flattening the cleaned lists. */
  lemma {:induction false} CleanAllFlatten(lists: seq<seq<string>>)
    ensures CleanAll(Flatten(lists)) == Flatten(CleanEach(lists))
    decreases |lists|
  {
    if lists != [] {
      CleanAllFlatten(lists[1..]);
      CleanAllAppend(lists[0], Flatten(lists[1..]));
      assert CleanEach(lists)[1..] == CleanEach(lists[1..]);
    }
  }

  /** The text of all trends at once holds each trend's cleaned tweets, the
      trends in key order, with only the empty lines at either end removed. */
  lemma AllInOneInTrendOrder(data: Snapshot)
    ensures Corpus(Flatten(TweetLists(data))) == Join(TrimEmpty(Flatten(CleanEach(TweetLists(data)))), "\n")
  {
    CorpusIsTrimmedJoin(Flatten(TweetLists(data)));
    CleanAllFlatten(TweetLists(data));
  }
}
