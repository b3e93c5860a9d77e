/** The `Loader` of the preprocessing code without its file access: the
    decoded JSON snapshot of one region is given as a value, the trends in
    the order of the file's keys, each with the texts of its tweets. */
module Loader {

  /** One key of the snapshot: a trend's name and the texts of its tweets. */
  datatype Trend = Trend(name: string, tweets: seq<string>)

  /** A decoded JSON object never holds the same key twice. */
  predicate DistinctNames(trends: seq<Trend>) {
    forall i, j | 0 <= i < j < |trends| :: trends[i].name != trends[j].name
  }

  /** The dictionary `json.load` returns, in the order of its keys. */
  type Snapshot = trends: seq<Trend> | DistinctNames(trends)

  /** The trends' names: the key set of the dictionary. */
  function Names(trends: seq<Trend>): set<string> {
    set i | 0 <= i < |trends| :: trends[i].name
  }

  /** `data[trend]` for every `trend` in `data.keys()`, in that order. */
  function TweetLists(trends: seq<Trend>): seq<seq<string>> {
    seq(|trends|, i requires 0 <= i < |trends| => trends[i].tweets)
  }

  /** `[tweet for tweets in lists for tweet in tweets]`. */
  function Flatten(lists: seq<seq<string>>): seq<string> {
    if lists == [] then [] else lists[0] + Flatten(lists[1..])
  }

  /** The number of tweets over all the lists. */
  function TweetCount(lists: seq<seq<string>>): nat {
    if lists == [] then 0 else |lists[0]| + TweetCount(lists[1..])
  }

  /** `load_all_in_one`: gathers each trend's list in key order, then
      flattens the lists with a nested comprehension. */
  method LoadAllInOne(data: Snapshot) returns (flattenedTweets: seq<string>)
    ensures flattenedTweets == Flatten(TweetLists(data))
  {
    var allTweets: seq<seq<string>> := [];
    for k := 0 to |data|
      invariant allTweets == TweetLists(data[..k])
    {
      var tweets := data[k].tweets;
      allTweets := allTweets + [tweets];
      assert TweetLists(data[..k + 1]) == TweetLists(data[..k]) + [tweets];
    }
    assert data[..|data|] == data;
    flattenedTweets := [];
    for i := 0 to |allTweets|
      invariant flattenedTweets == Flatten(allTweets[..i])
    {
      var tweets := allTweets[i];
      for j := 0 to |tweets|
        invariant flattenedTweets == Flatten(allTweets[..i]) + tweets[..j]
      {
        flattenedTweets := flattenedTweets + [tweets[j]];
        assert tweets[..j + 1] == tweets[..j] + [tweets[j]];
      }
      assert tweets[..|tweets|] == tweets;
      assert allTweets[..i + 1] == allTweets[..i] + [tweets];
      FlattenAppend(allTweets[..i], [tweets]);
      FlattenSingle(tweets);
    }
    assert allTweets[..|allTweets|] == allTweets;
  }

  lemma FlattenSingle(tweets: seq<string>)
    ensures Flatten([tweets]) == tweets
  {
    assert [tweets][1..] == [];
  }

  /** Flattening is compositional: the lists before and the lists after. */
  lemma {:induction false} FlattenAppend(a: seq<seq<string>>, b: seq<seq<string>>)
    ensures Flatten(a + b) == Flatten(a) + Flatten(b)
    decreases |a|
  {
    if a == [] {
      assert a + b == b;
    } else {
      assert (a + b)[1..] == a[1..] + b;
      FlattenAppend(a[1..], b);
    }
  }

  /** The flattened list holds as many tweets as all the lists together. */
  lemma {:induction false} FlattenLength(lists: seq<seq<string>>)
    ensures |Flatten(lists)| == TweetCount(lists)
    decreases |lists|
  {
    if lists != [] {
      FlattenLength(lists[1..]);
    }
  }

  /** The `j`-th tweet of the `i`-th list sits right after the tweets of the
      lists before it: flattening keeps both orders. */
  lemma FlattenKeepsOrder(lists: seq<seq<string>>, i: nat, j: nat)
    requires i < |lists| && j < |lists[i]|
    ensures TweetCount(lists[..i]) + j < |Flatten(lists)|
    ensures Flatten(lists)[TweetCount(lists[..i]) + j] == lists[i][j]
  {
    assert lists == lists[..i] + lists[i..];
    FlattenAppend(lists[..i], lists[i..]);
    FlattenLength(lists[..i]);
    FlattenLength(lists);
    assert lists[i..][0] == lists[i];
  }

  /** A tweet is in the flattened list exactly when it is in one of the lists. */
  lemma {:induction false} FlattenMembers(lists: seq<seq<string>>, tweet: string)
    ensures tweet in Flatten(lists) <==> exists i | 0 <= i < |lists| :: tweet in lists[i]
    decreases |lists|
  {
    if lists != [] {
      FlattenMembers(lists[1..], tweet);
      if tweet in Flatten(lists[1..]) {
        var i :| 0 <= i < |lists[1..]| && tweet in lists[1..][i];
        assert tweet in lists[i + 1];
      }
      if exists i | 0 <= i < |lists| :: tweet in lists[i] {
        var i :| 0 <= i < |lists| && tweet in lists[i];
        if i > 0 {
          assert tweet in lists[1..][i - 1];
        }
      }
    }
  }

  /** With distinct names there are as many keys as trends. */
  lemma {:induction false} NamesCount(trends: seq<Trend>)
    requires DistinctNames(trends)
    ensures |Names(trends)| == |trends|
    decreases |trends|
  {
    if trends != [] {
      var rest := trends[1..];
      NamesCount(rest);
      NamesCons(trends);
      assert trends[0].name !in Names(rest) by {
        forall i | 0 <= i < |rest| ensures rest[i].name != trends[0].name {
          assert rest[i] == trends[i + 1];
        }
      }
    }
  }

  lemma NamesCons(trends: seq<Trend>)
    requires trends != []
    ensures Names(trends) == {trends[0].name} + Names(trends[1..])
  {
    var rest := trends[1..];
    forall n | n in Names(trends) ensures n in {trends[0].name} + Names(rest) {
      var i :| 0 <= i < |trends| && trends[i].name == n;
      if i > 0 {
        assert rest[i - 1].name == n;
      }
    }
    forall n | n in Names(rest) ensures n in Names(trends) {
      var i :| 0 <= i < |rest| && rest[i].name == n;
      assert trends[i + 1].name == n;
    }
  }

  /** One more trend adds its name to the key set. */
  lemma NamesOfLongerPrefix(trends: seq<Trend>, k: nat)
    requires k < |trends|
    ensures Names(trends[..k + 1]) == Names(trends[..k]) + {trends[k].name}
  {
    var longer := trends[..k + 1];
    var shorter := trends[..k];
    forall n | n in Names(longer) ensures n in Names(shorter) + {trends[k].name} {
      var i :| 0 <= i < |longer| && longer[i].name == n;
      if i < k {
        assert shorter[i].name == n;
      }
    }
    assert longer[k] == trends[k];
    forall n | n in Names(shorter) ensures n in Names(longer) {
      var i :| 0 <= i < |shorter| && shorter[i].name == n;
      assert longer[i].name == n;
    }
  }
}
