/** Worked cases of `clean_tweet`: hashtags, case-sensitive link matching,
    a scheme with nothing after it, a link that stops at a hash mark. Each
    case is derived from the general lemmas of `CleanerPieces`; the facts
    about the literals themselves (how a tweet splits, what lower-casing a
    word gives) are stated apart, one small lemma each. */
module CleanerCases {
  import opened Strings
  import opened Cleaner
  import opened CleanerPieces

  /** The empty tweet cleans to the empty string. */
  lemma EmptyTweet()
    ensures CleanTweet("") == ""
  {
    CleanTweetOfNothing();
  }

  /** Lower-casing is decided character by character. */
  lemma LowerIs(w: string, r: string)
    requires |w| == |r| && forall i | 0 <= i < |w| :: LowerChar(w[i]) == r[i]
    ensures Lower(w) == r
  {
  }

  /** A word of ASCII letters cleans to `r` when `r` is its lower-case form. */
  lemma WordCleansTo(w: string, r: string)
    requires w != [] && forall i | 0 <= i < |w| :: IsAsciiLetter(w[i])
    requires |w| == |r| && forall i | 0 <= i < |w| :: LowerChar(w[i]) == r[i]
    ensures CleanTweet(w) == r
  {
    CleanTweetOfWord(w);
    LowerIs(w, r);
  }

  // "#cool" ------------------------------------------------------------------

  lemma HashtagFacts()
    ensures "#" + "cool" == "#cool" && Lower("cool") == "cool"
  {
  }

  /** A hashtag keeps its word. */
  lemma Hashtag()
    ensures CleanTweet("#cool") == "cool"
  {
    HashtagCleansToWord("cool");
    HashtagFacts();
  }

  // "a#b" --------------------------------------------------------------------

  lemma FusedSplit()
    ensures "a" + "#" + "b" == "a#b" && "a" + "b" == "ab"
  {
  }

  lemma FusedWord()
    ensures CleanTweet("ab") == "ab"
  {
    WordCleansTo("ab", "ab");
  }

  /** The two words around a hash mark fuse into one. */
  lemma HashtagFuses()
    ensures CleanTweet("a#b") == "ab"
  {
    FusedSplit();
    HashMarkVanishes("a", "b");
    FusedWord();
  }

  // "Check https://x.co/a #cool!! 123" ---------------------------------------

  lemma LinkFacts()
    ensures IsLink("https://x.co/a")
  {
    assert "https://x.co/a"[..8] == "https://";
  }

  /** A tweet that is one link cleans to the empty string. */
  lemma LinkAlone()
    ensures CleanTweet("https://x.co/a") == ""
  {
    LinkFacts();
    CleanTweetOfLink("https://x.co/a");
  }

  lemma PunctuationSplit()
    ensures "#cool!!" == "#cool" + ['!'] + "!"
  {
  }

  lemma PunctuationHasNoLink()
    ensures NoLinkStart("#cool" + ['!'] + "!")
  {
    NoLinkStartWithoutH("#cool" + ['!'] + "!");
  }

  lemma Exclamation()
    ensures CleanTweet("!") == ""
  {
    CleanTweetOfLetterless("!");
  }

  /** Punctuation after a hashtag is blanked out. */
  lemma PunctuatedHashtag()
    ensures CleanTweet("#cool!!") == "cool"
  {
    PunctuationSplit();
    PunctuationHasNoLink();
    CleanTweetAroundBlank("#cool", '!', "!");
    Hashtag();
    Exclamation();
  }

  lemma NumberSplit()
    ensures "#cool!! 123" == "#cool!!" + " " + "123"
  {
  }

  lemma Number()
    ensures CleanTweet("123") == ""
  {
    CleanTweetOfLetterless("123");
  }

  lemma HashtagThenNumber()
    ensures CleanTweet("#cool!! 123") == "cool"
  {
    NumberSplit();
    CleanTweetAroundSpace("#cool!!", "123");
    PunctuatedHashtag();
    Number();
  }

  lemma LinkSplit()
    ensures "https://x.co/a #cool!! 123" == "https://x.co/a" + " " + "#cool!! 123"
  {
  }

  lemma LinkThenHashtag()
    ensures CleanTweet("https://x.co/a #cool!! 123") == "cool"
  {
    LinkSplit();
    CleanTweetAroundSpace("https://x.co/a", "#cool!! 123");
    LinkAlone();
    HashtagThenNumber();
  }

  lemma CheckWord()
    ensures CleanTweet("Check") == "check"
  {
    WordCleansTo("Check", "check");
  }

  lemma MixedSplit()
    ensures "Check https://x.co/a #cool!! 123" == "Check" + " " + "https://x.co/a #cool!! 123"
  {
  }

  lemma MixedJoin()
    ensures JoinCleaned("check", "cool") == "check cool"
  {
  }

  /** A word, a link, a hashtag with punctuation and a number. */
  lemma WordLinkHashtagNumber()
    ensures CleanTweet("Check https://x.co/a #cool!! 123") == "check cool"
  {
    MixedSplit();
    CleanTweetAroundSpace("Check", "https://x.co/a #cool!! 123");
    CheckWord();
    LinkThenHashtag();
    MixedJoin();
  }

  // "HTTPS://X.CO" -----------------------------------------------------------

  lemma HostLetter()
    ensures CleanTweet("X") == "x"
  {
    WordCleansTo("X", "x");
  }

  lemma TopLevelDomain()
    ensures CleanTweet("CO") == "co"
  {
    WordCleansTo("CO", "co");
  }

  lemma UpperScheme()
    ensures CleanTweet("HTTPS") == "https"
  {
    WordCleansTo("HTTPS", "https");
  }

  lemma SchemeWord()
    ensures CleanTweet("http") == "http"
  {
    WordCleansTo("http", "http");
  }

  lemma SeeWord()
    ensures CleanTweet("see") == "see"
  {
    WordCleansTo("see", "see");
  }

  lemma NowWord()
    ensures CleanTweet("now") == "now"
  {
    WordCleansTo("now", "now");
  }

  lemma HostSplit()
    ensures "X.CO" == "X" + ['.'] + "CO"
  {
  }

  lemma HostHasNoLink()
    ensures NoLinkStart("X" + ['.'] + "CO")
  {
    NoLinkStartWithoutH("X" + ['.'] + "CO");
  }

  lemma HostJoin()
    ensures JoinCleaned("x", "co") == "x co"
  {
  }

  lemma UpperCaseHost()
    ensures CleanTweet("X.CO") == "x co"
  {
    HostSplit();
    HostHasNoLink();
    CleanTweetAroundBlank("X", '.', "CO");
    HostLetter();
    TopLevelDomain();
    HostJoin();
  }

  /** A blanked character in front of a text without links vanishes. */
  lemma LeadingBlank(c: char, t: string)
    requires IsBlank(c) && NoLinkStart([c] + t)
    ensures CleanTweet([c] + t) == CleanTweet(t)
  {
    assert [c] + t == [] + [c] + t;
    CleanTweetAroundBlank([], c, t);
    CleanTweetOfNothing();
  }

  lemma SlashesHaveNoLink()
    ensures NoLinkStart("/X.CO") && NoLinkStart("//X.CO")
  {
    NoLinkStartWithoutH("/X.CO");
    NoLinkStartWithoutH("//X.CO");
  }

  lemma Slashes()
    ensures CleanTweet("//X.CO") == "x co"
  {
    SlashesHaveNoLink();
    assert "//X.CO" == ['/'] + "/X.CO" && "/X.CO" == ['/'] + "X.CO";
    LeadingBlank('/', "/X.CO");
    LeadingBlank('/', "X.CO");
    UpperCaseHost();
  }

  lemma SchemeSplit()
    ensures "HTTPS://X.CO" == "HTTPS" + [':'] + "//X.CO"
  {
  }

  lemma SchemeHasNoLink()
    ensures NoLinkStart("HTTPS" + [':'] + "//X.CO")
  {
    NoLinkStartWithoutH("HTTPS" + [':'] + "//X.CO");
  }

  lemma SchemeJoin()
    ensures JoinCleaned("https", "x co") == "https x co"
  {
  }

  /** Link matching happens before lower-casing and is case-sensitive: an
      upper-case scheme is not a link, and its parts become words. */
  lemma UpperCaseScheme()
    ensures CleanTweet("HTTPS://X.CO") == "https x co"
  {
    SchemeSplit();
    SchemeHasNoLink();
    CleanTweetAroundBlank("HTTPS", ':', "//X.CO");
    UpperScheme();
    Slashes();
    SchemeJoin();
  }

  // "see http:// now" --------------------------------------------------------

  /** "http://" alone is not a link: the pattern needs a link character after it. */
  lemma BareSchemeHasNoLink()
    ensures NoLinkStart("http" + [':'] + "//")
  {
    var t := "http" + [':'] + "//";
    forall i | 0 <= i < |t| ensures MatchLink(t[i..]) == 0 {
      if i > 0 {
        MatchLinkNeedsH(t[i..]);
      } else {
        assert t[i..] == t;
      }
    }
  }

  lemma BareSchemeSplit()
    ensures "http://" == "http" + [':'] + "//"
  {
  }

  lemma Slashes2()
    ensures CleanTweet("//") == ""
  {
    CleanTweetOfLetterless("//");
  }

  lemma BareScheme()
    ensures CleanTweet("http://") == "http"
  {
    BareSchemeSplit();
    BareSchemeHasNoLink();
    CleanTweetAroundBlank("http", ':', "//");
    SchemeWord();
    Slashes2();
  }

  lemma SeeSplit()
    ensures "see http:// now" == "see" + " " + ("http://" + " " + "now")
  {
  }

  lemma SeeJoin()
    ensures JoinCleaned("see", JoinCleaned("http", "now")) == "see http now"
  {
  }

  /** A scheme with no link character after "://" is not a link. */
  lemma SchemeWithoutHost()
    ensures CleanTweet("see http:// now") == "see http now"
  {
    SeeSplit();
    CleanTweetAroundSpace("see", "http://" + " " + "now");
    CleanTweetAroundSpace("http://", "now");
    BareScheme();
    SeeWord();
    NowWord();
    SeeJoin();
  }

  // "http://t.co#tag" --------------------------------------------------------

  lemma GluedSplit()
    ensures "http://t.co#tag" == "http://t.co" + "#tag"
  {
  }

  lemma ShortLink()
    ensures IsLink("http://t.co")
  {
    assert "http://t.co"[..7] == "http://";
  }

  lemma TagSplit()
    ensures "#" + "tag" == "#tag"
  {
  }

  lemma Tag()
    ensures CleanTweet("#tag") == "tag"
  {
    TagSplit();
    HashtagCleansToWord("tag");
    LowerIs("tag", "tag");
  }

  /** A link ends at the first character outside its class, so a hashtag
      glued to it survives. */
  lemma LinkStopsAtHashMark()
    ensures CleanTweet("http://t.co#tag") == "tag"
  {
    GluedSplit();
    ShortLink();
    CleanTweetOfLinkThen("http://t.co", "#tag");
    CleanTweetOfLeadingSpace("#tag");
    Tag();
  }
}
