/** The `Cleaner` of the preprocessing code: the three regular expressions it
    compiles once and `clean_tweet`, which normalises one tweet by removing
    links, deleting hash marks, blanking every other non-letter, lower-casing,
    tokenizing and re-joining the tokens with single spaces. */
module Cleaner {
  import opened Strings

  predicate IsAsciiLetter(c: char) {
    'a' <= c <= 'z' || 'A' <= c <= 'Z'
  }

  // ---------------------------------------------------------------------------
  // The link pattern `https?://[A-Za-z0-9./]+`
  // ---------------------------------------------------------------------------

  /** The character class `[A-Za-z0-9./]`. */
  predicate IsLinkChar(c: char) {
    IsAsciiLetter(c) || '0' <= c <= '9' || c == '.' || c == '/'
  }

  predicate AllLinkChars(t: string) {
    forall i | 0 <= i < |t| :: IsLinkChar(t[i])
  }

  /** The language of the link pattern: the strings it matches as a whole. */
  predicate IsLink(t: string) {
    || (|t| > 7 && t[..7] == "http://" && AllLinkChars(t[7..]))
    || (|t| > 8 && t[..8] == "https://" && AllLinkChars(t[8..]))
  }

  /** Length of the run of link characters that `s` starts with. */
  function LinkCharRun(s: string): (n: nat)
    ensures n <= |s| && AllLinkChars(s[..n])
    ensures n < |s| ==> !IsLinkChar(s[n])
  {
    if s != [] && IsLinkChar(s[0]) then
      var m := LinkCharRun(s[1..]);
      assert s[..1 + m] == [s[0]] + s[1..][..m];
      1 + m
    else 0
  }

  /** Length of the scheme part of a match at the start of `s`: 8 for
      "https://" and 7 for "http://", each only when a link character
      follows (the `+` needs one); 0 when neither matches. The `s?` is tried
      first. */
  function SchemeLength(s: string): nat {
    if |s| > 8 && s[0] == 'h' && s[1] == 't' && s[2] == 't' && s[3] == 'p' && s[4] == 's'
       && s[5] == ':' && s[6] == '/' && s[7] == '/' && IsLinkChar(s[8]) then 8
    else if |s| > 7 && s[0] == 'h' && s[1] == 't' && s[2] == 't' && s[3] == 'p'
       && s[4] == ':' && s[5] == '/' && s[6] == '/' && IsLinkChar(s[7]) then 7
    else 0
  }

  /** Length of the match of the link pattern at the start of `s`, or 0 when
      it does not match there; the `+` is greedy. */
  function MatchLink(s: string): (n: nat)
    ensures n <= |s|
  {
    var k := SchemeLength(s);
    if k == 0 then 0 else k + LinkCharRun(s[k..])
  }

  /** The scheme test agrees with the pattern's literal prefixes. */
  lemma SchemeLengthPrefix(s: string)
    ensures SchemeLength(s) == 8 <==> |s| > 8 && s[..8] == "https://" && IsLinkChar(s[8])
    ensures SchemeLength(s) == 7 <==> !(|s| > 8 && s[..8] == "https://" && IsLinkChar(s[8]))
                                      && |s| > 7 && s[..7] == "http://" && IsLinkChar(s[7])
  {
    if |s| > 8 && s[..8] == "https://" {
      assert s[0] == s[..8][0] && s[1] == s[..8][1] && s[2] == s[..8][2] && s[3] == s[..8][3];
      assert s[4] == s[..8][4] && s[5] == s[..8][5] && s[6] == s[..8][6] && s[7] == s[..8][7];
    }
    if |s| > 7 && s[..7] == "http://" {
      assert s[0] == s[..7][0] && s[1] == s[..7][1] && s[2] == s[..7][2] && s[3] == s[..7][3];
      assert s[4] == s[..7][4] && s[5] == s[..7][5] && s[6] == s[..7][6];
    }
  }

  /** A run of link characters never stops before the end of a link-character prefix. */
  lemma {:induction false} LinkCharRunCovers(r: string, j: nat)
    requires j <= |r| && AllLinkChars(r[..j])
    ensures j <= LinkCharRun(r)
    decreases j
  {
    if j > 0 {
      assert r[0] == r[..j][0];
      assert r[1..][..j - 1] == r[..j][1..];
      LinkCharRunCovers(r[1..], j - 1);
    }
  }

  /** Every prefix of `s` that is a link ends inside the match. */
  lemma LinkPrefixWithinMatch(s: string, k: nat)
    requires k <= |s| && IsLink(s[..k])
    ensures k <= MatchLink(s)
  {
    var t := s[..k];
    SchemeLengthPrefix(s);
    if |t| > 8 && t[..8] == "https://" && AllLinkChars(t[8..]) {
      assert s[..8] == t[..8] && s[8] == t[8..][0];
      assert s[8..][..k - 8] == t[8..];
      LinkCharRunCovers(s[8..], k - 8);
    } else {
      assert t[..7] == "http://" && AllLinkChars(t[7..]);
      assert s[..7] == t[..7] && s[7] == t[7..][0];
      assert s[7..][..k - 7] == t[7..];
      if SchemeLength(s) == 8 {
        assert s[4] == t[..7][4];
      } else {
        LinkCharRunCovers(s[7..], k - 7);
      }
    }
  }

  /** The match is the longest prefix of `s` in the link language, and there
      is no match exactly when no prefix of `s` is a link. */
  lemma MatchLinkIsLongestLink(s: string)
    ensures MatchLink(s) > 0 ==> IsLink(s[..MatchLink(s)])
    ensures forall k | MatchLink(s) < k <= |s| :: !IsLink(s[..k])
  {
    var n := MatchLink(s);
    forall k | n < k <= |s| ensures !IsLink(s[..k]) {
      if IsLink(s[..k]) {
        LinkPrefixWithinMatch(s, k);
      }
    }
    if n > 0 {
      var t := s[..n];
      SchemeLengthPrefix(s);
      if SchemeLength(s) == 8 {
        assert t[..8] == s[..8] && t[8..] == s[8..][..n - 8];
      } else {
        assert t[..7] == s[..7] && t[7..] == s[7..][..n - 7];
      }
    }
  }

  /** `link_regex.sub(" ", s)`: scanning from the left, every match of the
      link pattern is replaced by one space and scanning resumes after it. */
  function RemoveLinks(s: string): (r: string)
    ensures |r| <= |s|
    decreases |s|
  {
    if s == [] then []
    else
      var n := MatchLink(s);
      if n > 0 then " " + RemoveLinks(s[n..])
      else [s[0]] + RemoveLinks(s[1..])
  }

  lemma RemoveLinksCopiesHead(s: string)
    requires s != [] && MatchLink(s) == 0
    ensures RemoveLinks(s) == [s[0]] + RemoveLinks(s[1..])
  {
  }

  lemma RemoveLinksReplacesMatch(s: string)
    requires MatchLink(s) > 0
    ensures RemoveLinks(s) == " " + RemoveLinks(s[MatchLink(s)..])
  {
  }

  /** The scan finds no match at any position of `s`. */
  predicate NoLinkStart(s: string) {
    forall i | 0 <= i < |s| :: MatchLink(s[i..]) == 0
  }

  /** No substring of `s` is a link. */
  ghost predicate ContainsNoLink(s: string) {
    forall i, j | 0 <= i <= j <= |s| :: !IsLink(s[i..j])
  }

  lemma NoLinkStartMeansNoLink(s: string)
    ensures NoLinkStart(s) <==> ContainsNoLink(s)
  {
    if NoLinkStart(s) {
      forall i, j | 0 <= i <= j <= |s| ensures !IsLink(s[i..j]) {
        if i < |s| {
          MatchLinkIsLongestLink(s[i..]);
          assert s[i..][..j - i] == s[i..j];
        }
      }
    }
    if ContainsNoLink(s) {
      forall i | 0 <= i < |s| ensures MatchLink(s[i..]) == 0 {
        var n := MatchLink(s[i..]);
        MatchLinkIsLongestLink(s[i..]);
        assert s[i..][..n] == s[i..i + n];
      }
    }
  }

  /** Up to the first space it produces, link removal copies its input. */
  lemma {:induction false} RemoveLinksCopiesUpToSpace(s: string, k: nat)
    requires k <= |RemoveLinks(s)|
    ensures ' ' in RemoveLinks(s)[..k] || (k <= |s| && RemoveLinks(s)[..k] == s[..k])
    decreases |s|
  {
    if k > 0 {
      if MatchLink(s) > 0 {
        RemoveLinksReplacesMatch(s);
        assert RemoveLinks(s)[..k][0] == ' ';
      } else {
        RemoveLinksCopiesHead(s);
        RemoveLinksCopiesUpToSpace(s[1..], k - 1);
        assert s == [s[0]] + s[1..];
        PrefixUpToSpaceCons(s[0], s[1..], RemoveLinks(s[1..]), k);
      }
    }
  }

  lemma PrefixUpToSpaceCons(c: char, t: string, r: string, k: nat)
    requires 0 < k <= |r| + 1
    requires ' ' in r[..k - 1] || (k - 1 <= |t| && r[..k - 1] == t[..k - 1])
    ensures ' ' in ([c] + r)[..k] || (k <= |t| + 1 && ([c] + r)[..k] == ([c] + t)[..k])
  {
    assert ([c] + r)[..k] == [c] + r[..k - 1];
    if ' ' in r[..k - 1] {
      var j :| 0 <= j < k - 1 && r[..k - 1][j] == ' ';
      assert ([c] + r)[..k][j + 1] == ' ';
    } else {
      assert ([c] + t)[..k] == [c] + t[..k - 1];
    }
  }

  /** How many leading characters of `s` decide whether the link pattern
      matches there: the scheme and one link character. */
  function HeadLength(s: string): nat {
    SchemeLength(s) + 1
  }

  lemma MatchLinkHeadHasNoSpace(s: string)
    requires MatchLink(s) > 0
    ensures HeadLength(s) <= |s| && ' ' !in s[..HeadLength(s)]
  {
  }

  lemma MatchLinkDecidedByHead(a: string, b: string)
    requires MatchLink(a) > 0
    requires HeadLength(a) <= |b| && a[..HeadLength(a)] == b[..HeadLength(a)]
    ensures MatchLink(b) > 0
  {
    var q := HeadLength(a);
    assert forall i | 0 <= i < q :: a[i] == a[..q][i] == b[..q][i] == b[i];
  }

  lemma MatchLinkNeedsH(s: string)
    requires s != [] && s[0] != 'h'
    ensures MatchLink(s) == 0
  {
  }

  /** A character the scan kept cannot start a link together with what the
      rest of the scan produced. */
  lemma KeptCharStartsNoLink(s: string)
    requires s != [] && MatchLink(s) == 0
    ensures MatchLink([s[0]] + RemoveLinks(s[1..])) == 0
  {
    var rest := RemoveLinks(s[1..]);
    var o := [s[0]] + rest;
    if MatchLink(o) > 0 {
      var q := HeadLength(o);
      MatchLinkHeadHasNoSpace(o);
      RemoveLinksCopiesUpToSpace(s[1..], q - 1);
      assert rest[..q - 1] == o[..q][1..];
      assert o[..q] == [s[0]] + rest[..q - 1];
      assert s[..q] == [s[0]] + s[1..][..q - 1];
      MatchLinkDecidedByHead(o, s);
    }
  }

  /** A link start in `[c] + rest` can only be at `c`. */
  lemma NoLinkStartCons(c: char, rest: string)
    requires NoLinkStart(rest) && MatchLink([c] + rest) == 0
    ensures NoLinkStart([c] + rest)
  {
    var o := [c] + rest;
    forall i | 0 <= i < |o| ensures MatchLink(o[i..]) == 0 {
      if i > 0 {
        assert o[i..] == rest[i - 1..];
      } else {
        assert o[0..] == o;
      }
    }
  }

  lemma {:induction false} RemoveLinksLeavesNoLinkStart(s: string)
    ensures NoLinkStart(RemoveLinks(s))
    decreases |s|
  {
    if s != [] {
      var n := MatchLink(s);
      if n > 0 {
        RemoveLinksReplacesMatch(s);
        RemoveLinksLeavesNoLinkStart(s[n..]);
        MatchLinkNeedsH(" " + RemoveLinks(s[n..]));
        NoLinkStartCons(' ', RemoveLinks(s[n..]));
      } else {
        RemoveLinksCopiesHead(s);
        RemoveLinksLeavesNoLinkStart(s[1..]);
        KeptCharStartsNoLink(s);
        NoLinkStartCons(s[0], RemoveLinks(s[1..]));
      }
    }
  }

  /** No link survives link removal, even one that the removal could have
      assembled from the pieces around a removed link. */
  lemma RemoveLinksLeavesNoLink(s: string)
    ensures ContainsNoLink(RemoveLinks(s))
  {
    RemoveLinksLeavesNoLinkStart(s);
    NoLinkStartMeansNoLink(RemoveLinks(s));
  }

  lemma {:induction false} RemoveLinksKeepsNoLinkStart(s: string)
    requires NoLinkStart(s)
    ensures RemoveLinks(s) == s
    decreases |s|
  {
    if s != [] {
      assert s[0..] == s;
      assert NoLinkStart(s[1..]) by {
        forall i | 0 <= i < |s[1..]| ensures MatchLink(s[1..][i..]) == 0 {
          assert s[1..][i..] == s[i + 1..];
        }
      }
      RemoveLinksKeepsNoLinkStart(s[1..]);
    }
  }

  /** Link removal leaves a string without links unchanged. */
  lemma RemoveLinksKeepsLinkFree(s: string)
    requires ContainsNoLink(s)
    ensures RemoveLinks(s) == s
  {
    NoLinkStartMeansNoLink(s);
    RemoveLinksKeepsNoLinkStart(s);
  }

  /** Link removal is idempotent. */
  lemma RemoveLinksIdempotent(s: string)
    ensures RemoveLinks(RemoveLinks(s)) == RemoveLinks(s)
  {
    RemoveLinksLeavesNoLink(s);
    RemoveLinksKeepsLinkFree(RemoveLinks(s));
  }

  // ---------------------------------------------------------------------------
  // Hash marks, encodings, lower case
  // ---------------------------------------------------------------------------

  /** `hashtags_regex.sub("", s)`: every `#` is deleted, not replaced. */
  function DeleteHashes(s: string): (r: string)
    ensures '#' !in r
    ensures |r| <= |s|
    ensures '#' !in s ==> r == s
  {
    if s == [] then []
    else (if s[0] == '#' then [] else [s[0]]) + DeleteHashes(s[1..])
  }

  /** What `encodings_regex.sub(" ", ...)` makes of one character: the class
      `[^a-zA-Z#]` is replaced by a space. */
  function KeepOrBlank(c: char): char {
    if IsAsciiLetter(c) || c == '#' then c else ' '
  }

  /** `encodings_regex.sub(" ", s)`. */
  function ReplaceNonLetters(s: string): string {
    seq(|s|, i requires 0 <= i < |s| => KeepOrBlank(s[i]))
  }

  function LowerChar(c: char): char {
    if 'A' <= c <= 'Z' then (c as int + 32) as char else c
  }

  /** `str.lower()` on ASCII text. */
  function Lower(s: string): string {
    seq(|s|, i requires 0 <= i < |s| => LowerChar(s[i]))
  }

  // ---------------------------------------------------------------------------
  // Tokenizing and re-joining
  // ---------------------------------------------------------------------------

  /** Length of the run of non-space characters that `s` starts with. */
  function WordLength(s: string): (n: nat)
    ensures n <= |s|
    ensures forall i | 0 <= i < n :: s[i] != ' '
    ensures n < |s| ==> s[n] == ' '
  {
    if s == [] || s[0] == ' ' then 0 else 1 + WordLength(s[1..])
  }

  /** `WordPunctTokenizer().tokenize(s)` on text made of letters and spaces:
      the maximal runs of non-space characters, in order. */
  function Tokenize(s: string): (words: seq<string>)
    ensures forall k | 0 <= k < |words| :: words[k] != []
    ensures forall k, i | 0 <= k < |words| && 0 <= i < |words[k]| :: words[k][i] != ' '
    decreases |s|
  {
    if s == [] then []
    else if s[0] == ' ' then Tokenize(s[1..])
    else
      var n := WordLength(s);
      [s[..n]] + Tokenize(s[n..])
  }

  lemma TokenizeSpaceStep(s: string)
    requires s != [] && s[0] == ' '
    ensures Tokenize(s) == Tokenize(s[1..])
  {
  }

  lemma TokenizeWordStep(s: string)
    requires s != [] && s[0] != ' '
    ensures Tokenize(s) == [s[..WordLength(s)]] + Tokenize(s[WordLength(s)..])
  {
  }

  /** Single spaces only between words: none at either end, never two in a row. */
  predicate SingleSpaced(t: string) {
    && (t == [] || (t[0] != ' ' && t[|t| - 1] != ' '))
    && (forall i | 0 <= i < |t| - 1 :: t[i] == ' ' ==> t[i + 1] != ' ')
  }

  /** The shape of a cleaned tweet: lower-case ASCII words separated by single spaces. */
  predicate Canonical(t: string) {
    && (forall i | 0 <= i < |t| :: 'a' <= t[i] <= 'z' || t[i] == ' ')
    && SingleSpaced(t)
  }

  /** Tokenizing words joined by single spaces gives the words back. */
  lemma {:induction false} TokenizeJoin(words: seq<string>)
    requires forall k | 0 <= k < |words| :: words[k] != []
    requires forall k, i | 0 <= k < |words| && 0 <= i < |words[k]| :: words[k][i] != ' '
    ensures Tokenize(Join(words, " ")) == words
    decreases |words|
  {
    if words != [] {
      var w := words[0];
      var rest := words[1..];
      JoinCons(w, rest, " ");
      assert [w] + rest == words;
      if rest == [] {
        TokenizeWordThen(w, []);
        assert w + [] == w;
      } else {
        var tail := " " + Join(rest, " ");
        TokenizeWordThen(w, tail);
        SpacedTail(w, Join(rest, " "));
        TokenizeSpaceStep(tail);
        TokenizeJoin(rest);
      }
    }
  }

  lemma SpacedTail(w: string, t: string)
    ensures w + (" " + t) == w + " " + t && (" " + t)[1..] == t
  {
  }

  /** A word followed by a space or by nothing is one token. */
  lemma TokenizeWordThen(w: string, rest: string)
    requires w != [] && forall i | 0 <= i < |w| :: w[i] != ' '
    requires rest == [] || rest[0] == ' '
    ensures Tokenize(w + rest) == [w] + Tokenize(rest)
  {
    WordLengthOfWord(w, rest);
    var s := w + rest;
    assert s[..|w|] == w && s[|w|..] == rest;
    TokenizeWordStep(s);
  }

  lemma {:induction false} WordLengthOfWord(w: string, tail: string)
    requires forall i | 0 <= i < |w| :: w[i] != ' '
    requires tail == [] || tail[0] == ' '
    ensures WordLength(w + tail) == |w|
    decreases |w|
  {
    if w != [] {
      assert (w + tail)[1..] == w[1..] + tail;
      WordLengthOfWord(w[1..], tail);
    } else {
      assert w + tail == tail;
    }
  }

  /** The text after a space of single-spaced text is single-spaced and starts a word. */
  lemma SingleSpacedAfterSpace(t: string, n: nat)
    requires SingleSpaced(t) && n < |t| && t[n] == ' '
    ensures n + 1 < |t| && t[n + 1] != ' ' && SingleSpaced(t[n + 1..])
  {
    var u := t[n + 1..];
    forall i | 0 <= i < |u| - 1 ensures u[i] == ' ' ==> u[i + 1] != ' ' {
      assert u[i] == t[n + 1 + i] && u[i + 1] == t[n + 2 + i];
    }
  }

  /** Re-joining the tokens of single-spaced text gives the text back. */
  lemma {:induction false} JoinTokenize(t: string)
    requires SingleSpaced(t)
    ensures Join(Tokenize(t), " ") == t
    decreases |t|
  {
    if t != [] {
      var n := WordLength(t);
      var w := t[..n];
      TokenizeWordStep(t);
      if n == |t| {
        assert t[n..] == [] && w == t;
      } else {
        var u := t[n + 1..];
        SingleSpacedAfterSpace(t, n);
        SplitAtSpace(t, n);
        TokenizeSpaceStep(t[n..]);
        JoinTokenize(u);
        JoinCons(w, Tokenize(u), " ");
      }
    }
  }

  lemma SplitAtSpace(t: string, n: nat)
    requires n < |t| && t[n] == ' '
    ensures t[n..][1..] == t[n + 1..]
    ensures t == t[..n] + " " + t[n + 1..]
  {
  }

  /** Lower-case ASCII words joined by single spaces have the shape of a cleaned tweet. */
  lemma {:induction false} JoinLowerWordsCanonical(words: seq<string>)
    requires forall k | 0 <= k < |words| :: words[k] != []
    requires forall k, i | 0 <= k < |words| && 0 <= i < |words[k]| :: 'a' <= words[k][i] <= 'z'
    ensures Canonical(Join(words, " "))
    ensures words != [] ==> Join(words, " ") != []
    decreases |words|
  {
    if words != [] {
      var w := words[0];
      var rest := words[1..];
      assert [w] + rest == words;
      JoinCons(w, rest, " ");
      if rest != [] {
        JoinLowerWordsCanonical(rest);
        WordSpaceCanonical(w, Join(rest, " "));
      }
    }
  }

  lemma WordSpaceCanonical(w: string, t: string)
    requires w != [] && forall i | 0 <= i < |w| :: 'a' <= w[i] <= 'z'
    requires t != [] && Canonical(t)
    ensures Canonical(w + " " + t)
  {
    var r := w + " " + t;
    forall i | 0 <= i < |r| - 1 ensures r[i] == ' ' ==> r[i + 1] != ' ' {
      if i >= |w| + 1 {
        assert r[i] == t[i - |w| - 1] && r[i + 1] == t[i - |w|];
      }
    }
    assert r[|r| - 1] == t[|t| - 1];
  }

  /** Steps two to four of `clean_tweet`, applied to the text whose links
      are already gone: `#` is deleted, every other character outside
      `[a-zA-Z]` becomes a space, and the text is lower-cased. */
  function PrepareText(noLinks: string): string {
    var noHashtag := DeleteHashes(noLinks);
    var noEncodings := ReplaceNonLetters(noHashtag);
    Lower(noEncodings)
  }

  /** The last steps of `clean_tweet`: the text is tokenized, the tokens are
      re-joined with single spaces and the result is stripped. */
  function Retokenize(text: string): string {
    Strip(Join(Tokenize(text), " "))
  }

  /** `clean_tweet`. */
  function CleanTweet(tweet: string): string {
    Retokenize(PrepareText(RemoveLinks(tweet)))
  }

  /** The text the tokenizer is given holds only lower-case ASCII letters and spaces. */
  lemma PrepareTextIsLowerOrSpace(noLinks: string)
    ensures var t := PrepareText(noLinks);
            forall i | 0 <= i < |t| :: 'a' <= t[i] <= 'z' || t[i] == ' '
  {
    var b := DeleteHashes(noLinks);
    var c := ReplaceNonLetters(b);
    forall i | 0 <= i < |c| ensures IsAsciiLetter(c[i]) || c[i] == ' ' {
      assert b[i] in b;
    }
  }

  /** On lower-case letters and spaces the final strip finds nothing to remove. */
  lemma RetokenizeLowerText(text: string)
    requires forall i | 0 <= i < |text| :: 'a' <= text[i] <= 'z' || text[i] == ' '
    ensures Canonical(Join(Tokenize(text), " "))
    ensures Retokenize(text) == Join(Tokenize(text), " ")
  {
    TokenizeLowerText(text);
    JoinLowerWordsCanonical(Tokenize(text));
    StripCanonical(Join(Tokenize(text), " "));
  }

  lemma StripCanonical(t: string)
    requires Canonical(t)
    ensures Strip(t) == t
  {
    StripKeepsTrimmed(t);
  }

  lemma {:induction false} TokenizeLowerText(text: string)
    requires forall i | 0 <= i < |text| :: 'a' <= text[i] <= 'z' || text[i] == ' '
    ensures forall k, i | 0 <= k < |Tokenize(text)| && 0 <= i < |Tokenize(text)[k]| :: 'a' <= Tokenize(text)[k][i] <= 'z'
    decreases |text|
  {
    if text != [] {
      var m := if text[0] == ' ' then 1 else WordLength(text);
      var u := text[m..];
      assert forall i | 0 <= i < |u| :: 'a' <= u[i] <= 'z' || u[i] == ' ' by {
        forall i | 0 <= i < |u| ensures 'a' <= u[i] <= 'z' || u[i] == ' ' {
          assert u[i] == text[m + i];
        }
      }
      TokenizeLowerText(u);
      var words := Tokenize(text);
      if text[0] == ' ' {
        assert words == Tokenize(u);
      } else {
        assert words == [text[..m]] + Tokenize(u);
        forall k, i | 0 <= k < |words| && 0 <= i < |words[k]| ensures 'a' <= words[k][i] <= 'z' {
          if k == 0 {
            assert words[k][i] == text[i];
          } else {
            assert words[k] == Tokenize(u)[k - 1];
          }
        }
      }
    }
  }

  /** The final strip of `clean_tweet` finds nothing to remove. */
  lemma CleanTweetIsJoinedTokens(tweet: string)
    ensures var joined := Join(Tokenize(PrepareText(RemoveLinks(tweet))), " ");
            Canonical(joined) && CleanTweet(tweet) == joined
  {
    PrepareTextIsLowerOrSpace(RemoveLinks(tweet));
    RetokenizeLowerText(PrepareText(RemoveLinks(tweet)));
  }

  /** A cleaned tweet holds only lower-case ASCII letters and single spaces
      between words: no leading, trailing or doubled space. */
  lemma CleanTweetIsCanonical(tweet: string)
    ensures Canonical(CleanTweet(tweet))
  {
    CleanTweetIsJoinedTokens(tweet);
  }

  /** A match starts with "http:" or "https:". */
  lemma MatchLinkColonAt(s: string)
    requires MatchLink(s) > 0
    ensures |s| > 7 && (s[4] == ':' || s[5] == ':')
  {

  }

  lemma MatchLinkInsideNeedsColon(s: string, i: nat)
    requires i < |s| && MatchLink(s[i..]) > 0
    ensures ':' in s
  {
    MatchLinkColonAt(s[i..]);
    assert s[i..][4] == s[i + 4] && s[i..][5] == s[i + 5];
  }

  /** Link removal leaves text without a colon unchanged. */
  lemma RemoveLinksWithoutColon(s: string)
    requires ':' !in s
    ensures RemoveLinks(s) == s
  {
    forall i | 0 <= i < |s| ensures MatchLink(s[i..]) == 0 {
      if MatchLink(s[i..]) > 0 {
        MatchLinkInsideNeedsColon(s, i);
      }
    }
    RemoveLinksKeepsNoLinkStart(s);
  }

  /** Text that already has the shape of a cleaned tweet is left unchanged. */
  lemma CanonicalIsFixedPoint(t: string)
    requires Canonical(t)
    ensures CleanTweet(t) == t
  {
    RemoveLinksWithoutColon(t);
    PrepareTextOfLowerText(t);
    RetokenizeLowerText(t);
    JoinTokenize(t);
  }

  lemma PrepareTextOfLowerText(t: string)
    requires forall i | 0 <= i < |t| :: 'a' <= t[i] <= 'z' || t[i] == ' '
    ensures PrepareText(t) == t
  {
    assert '#' !in t;
    assert ReplaceNonLetters(t) == t;
    assert Lower(t) == t;
  }

  /** `clean_tweet` is idempotent. */
  lemma CleanTweetIdempotent(tweet: string)
    ensures CleanTweet(CleanTweet(tweet)) == CleanTweet(tweet)
  {
    CleanTweetIsCanonical(tweet);
    CanonicalIsFixedPoint(CleanTweet(tweet));
  }

  // ---------------------------------------------------------------------------
  // Which letters survive
  // ---------------------------------------------------------------------------

  /** The ASCII letters of `s`, in order. */
  function LettersOf(s: string): (r: string)
    ensures forall i | 0 <= i < |r| :: IsAsciiLetter(r[i])
  {
    if s == [] then [] else (if IsAsciiLetter(s[0]) then [s[0]] else []) + LettersOf(s[1..])
  }

  lemma {:induction false} LettersOfConcat(a: string, b: string)
    ensures LettersOf(a + b) == LettersOf(a) + LettersOf(b)
    decreases |a|
  {
    if a == [] {
      assert a + b == b;
    } else {
      assert (a + b)[1..] == a[1..] + b;
      LettersOfConcat(a[1..], b);
    }
  }

  lemma {:induction false} LettersOfDeleteHashes(s: string)
    ensures LettersOf(DeleteHashes(s)) == LettersOf(s)
    decreases |s|
  {
    if s != [] {
      var head := if s[0] == '#' then [] else [s[0]];
      LettersOfConcat(head, DeleteHashes(s[1..]));
      LettersOfDeleteHashes(s[1..]);
      if head != [] {
        assert head[1..] == [];
      }
    }
  }

  lemma {:induction false} LettersOfReplaceNonLetters(s: string)
    ensures LettersOf(ReplaceNonLetters(s)) == LettersOf(s)
    decreases |s|
  {
    if s != [] {
      var r := ReplaceNonLetters(s);
      assert r[1..] == ReplaceNonLetters(s[1..]);
      LettersOfReplaceNonLetters(s[1..]);
    }
  }

  lemma {:induction false} LettersOfLower(s: string)
    ensures LettersOf(Lower(s)) == Lower(LettersOf(s))
    decreases |s|
  {
    if s != [] {
      var r := Lower(s);
      assert r[1..] == Lower(s[1..]);
      LettersOfLower(s[1..]);
      var rest := LettersOf(s[1..]);
      if IsAsciiLetter(s[0]) {
        assert ([s[0]] + rest)[1..] == rest;
      }
    }
  }

  /** Tokenizing and re-joining moves spaces only. */
  lemma {:induction false} LettersOfJoinTokenize(t: string)
    ensures LettersOf(Join(Tokenize(t), " ")) == LettersOf(t)
    decreases |t|
  {
    if t != [] {
      if t[0] == ' ' {
        TokenizeSpaceStep(t);
        LettersOfJoinTokenize(t[1..]);
      } else {
        var n := WordLength(t);
        var w := t[..n];
        var rest := Tokenize(t[n..]);
        TokenizeWordStep(t);
        LettersOfJoinTokenize(t[n..]);
        assert t == w + t[n..];
        LettersOfConcat(w, t[n..]);
        JoinCons(w, rest, " ");
        if rest != [] {
          LettersOfAroundSpace(w, Join(rest, " "));
        }
      }
    }
  }

  lemma LettersOfAroundSpace(a: string, b: string)
    ensures LettersOf(a + " " + b) == LettersOf(a) + LettersOf(b)
  {
    LettersOfConcat(a + " ", b);
    LettersOfConcat(a, " ");
    assert LettersOf(" ") == [];
  }

  /** The letters of a cleaned tweet are exactly the ASCII letters of the
      tweet that lie outside links, lower-cased and in their original order. */
  lemma CleanTweetKeepsLettersOutsideLinks(tweet: string)
    ensures LettersOf(CleanTweet(tweet)) == Lower(LettersOf(RemoveLinks(tweet)))
  {
    var a := RemoveLinks(tweet);
    var b := DeleteHashes(a);
    var c := ReplaceNonLetters(b);
    CleanTweetIsJoinedTokens(tweet);
    LettersOfJoinTokenize(PrepareText(RemoveLinks(tweet)));
    LettersOfLower(c);
    LettersOfReplaceNonLetters(b);
    LettersOfDeleteHashes(a);
  }

  /** A tweet with no ASCII letter outside its links cleans to the empty string. */
  lemma CleanTweetEmptyWithoutLetters(tweet: string)
    requires LettersOf(RemoveLinks(tweet)) == []
    ensures CleanTweet(tweet) == []
  {
    var t := CleanTweet(tweet);
    CleanTweetKeepsLettersOutsideLinks(tweet);
    CleanTweetIsCanonical(tweet);
    if t != [] {
      CanonicalHasLetter(t);
    }
  }

  lemma CanonicalHasLetter(t: string)
    requires Canonical(t) && t != []
    ensures LettersOf(t) != []
  {
    assert LettersOf(t)[0] == t[0];
  }

  lemma {:induction false} NoLettersAtAll(s: string)
    requires forall i | 0 <= i < |s| :: !IsAsciiLetter(s[i])
    ensures LettersOf(s) == []
    decreases |s|
  {
    if s != [] {
      NoLettersAtAll(s[1..]);
    }
  }

  /** In particular a tweet with no ASCII letter at all, the empty tweet
      among them, cleans to the empty string. */
  lemma CleanTweetOfLetterless(tweet: string)
    requires forall i | 0 <= i < |tweet| :: !IsAsciiLetter(tweet[i])
    ensures CleanTweet(tweet) == []
  {
    forall i | 0 <= i < |tweet| ensures MatchLink(tweet[i..]) == 0 {
      MatchLinkNeedsH(tweet[i..]);
    }
    RemoveLinksKeepsNoLinkStart(tweet);
    NoLettersAtAll(tweet);
    CleanTweetEmptyWithoutLetters(tweet);
  }
}
