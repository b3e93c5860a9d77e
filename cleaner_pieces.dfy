/** How `clean_tweet` treats a tweet piece by piece: a space, or any other
    character that the cleaning turns into a space, cuts a tweet into parts
    that are cleaned independently and then joined with one space; a link is
    cleaned as if it were a space; a hash mark vanishes and glues its
    neighbours together. */
module CleanerPieces {
  import opened Strings
  import opened Cleaner

  /** Two cleaned parts joined the way the re-joined tokens are: with one
      space between them, an empty part contributing nothing. */
  function JoinCleaned(x: string, y: string): string {
    if x == [] then y else if y == [] then x else x + " " + y
  }

  /** A character that the encodings step turns into a space. */
  predicate IsBlank(c: char) {
    !IsAsciiLetter(c) && c != '#'
  }

  // ---------------------------------------------------------------------------
  // The steps after link removal, on a text cut at a blank
  // ---------------------------------------------------------------------------

  lemma DeleteHashesCons(c: char, t: string)
    ensures DeleteHashes([c] + t) == (if c == '#' then [] else [c]) + DeleteHashes(t)
  {
    assert ([c] + t)[0] == c && ([c] + t)[1..] == t;
  }

  lemma {:induction false} DeleteHashesConcat(a: string, b: string)
    ensures DeleteHashes(a + b) == DeleteHashes(a) + DeleteHashes(b)
    decreases |a|
  {
    if a == [] {
      assert a + b == b;
    } else {
      DeleteHashesConcat(a[1..], b);
      DeleteHashesConsConcat(a[0], a[1..], b);
      assert a == [a[0]] + a[1..];
    }
  }

  lemma ConsAssoc(c: char, t: string, b: string)
    ensures [c] + t + b == [c] + (t + b)
  {
  }

  lemma Assoc(a: string, b: string, c: string)
    ensures a + (b + c) == a + b + c
  {
  }

  lemma DeleteHashesConsConcat(c: char, t: string, b: string)
    requires DeleteHashes(t + b) == DeleteHashes(t) + DeleteHashes(b)
    ensures DeleteHashes([c] + t + b) == DeleteHashes([c] + t) + DeleteHashes(b)
  {
    ConsAssoc(c, t, b);
    DeleteHashesCons(c, t + b);
    DeleteHashesCons(c, t);
    var h := if c == '#' then [] else [c];
    Assoc(h, DeleteHashes(t), DeleteHashes(b));
  }

  lemma ReplaceNonLettersConcat(a: string, b: string)
    ensures ReplaceNonLetters(a + b) == ReplaceNonLetters(a) + ReplaceNonLetters(b)
  {
    var l, r := ReplaceNonLetters(a + b), ReplaceNonLetters(a) + ReplaceNonLetters(b);
    forall i | 0 <= i < |l| ensures l[i] == r[i] {
      if i < |a| { assert (a + b)[i] == a[i]; } else { assert (a + b)[i] == b[i - |a|]; }
    }
  }

  lemma LowerConcat(a: string, b: string)
    ensures Lower(a + b) == Lower(a) + Lower(b)
  {
    var l, r := Lower(a + b), Lower(a) + Lower(b);
    forall i | 0 <= i < |l| ensures l[i] == r[i] {
      if i < |a| { assert (a + b)[i] == a[i]; } else { assert (a + b)[i] == b[i - |a|]; }
    }
  }

  /** Hash marks, encodings and case are handled character by character. */
  lemma PrepareTextConcat(a: string, b: string)
    ensures PrepareText(a + b) == PrepareText(a) + PrepareText(b)
  {
    DeleteHashesConcat(a, b);
    ReplaceNonLettersConcat(DeleteHashes(a), DeleteHashes(b));
    LowerConcat(ReplaceNonLetters(DeleteHashes(a)), ReplaceNonLetters(DeleteHashes(b)));
  }

  /** A blank becomes one space and nothing else changes around it. */
  lemma PrepareTextAroundBlank(x: string, c: char, y: string)
    requires IsBlank(c)
    ensures PrepareText(x + [c] + y) == PrepareText(x) + " " + PrepareText(y)
  {
    PrepareTextConcat(x + [c], y);
    PrepareTextConcat(x, [c]);
    assert DeleteHashes([c]) == [c];
    assert ReplaceNonLetters([c]) == " ";
    assert Lower(" ") == " ";
  }

  /** Tokens never span a space. */
  lemma {:induction false} TokenizeAroundSpace(x: string, y: string)
    ensures Tokenize(x + " " + y) == Tokenize(x) + Tokenize(y)
    decreases |x|
  {
    var s := x + " " + y;
    if x == [] {
      assert s == " " + y && s[1..] == y;
      TokenizeSpaceStep(s);
    } else if x[0] == ' ' {
      assert s[0] == ' ' && s[1..] == x[1..] + " " + y;
      TokenizeSpaceStep(s);
      TokenizeSpaceStep(x);
      TokenizeAroundSpace(x[1..], y);
    } else {
      var n := WordLength(x);
      var w := x[..n];
      var tail := x[n..] + " " + y;
      assert s == w + tail;
      assert tail[0] == ' ';
      TokenizeWordThen(w, tail);
      TokenizeWordStep(x);
      TokenizeAroundSpace(x[n..], y);
      assert [w] + (Tokenize(x[n..]) + Tokenize(y)) == ([w] + Tokenize(x[n..])) + Tokenize(y);
    }
  }

  /** Non-empty words join to the empty string only when there are none. */
  lemma JoinOfWordsEmpty(words: seq<string>)
    requires forall k | 0 <= k < |words| :: words[k] != []
    ensures Join(words, " ") == [] <==> words == []
  {
    if |words| > 1 {
      assert Join(words, " ") == words[0] + " " + Join(words[1..], " ");
    }
  }

  /** Joining two lists of words at once is joining their two joins. */
  lemma {:induction false} JoinAppend(ws1: seq<string>, ws2: seq<string>)
    requires forall k | 0 <= k < |ws1| :: ws1[k] != []
    requires forall k | 0 <= k < |ws2| :: ws2[k] != []
    ensures Join(ws1 + ws2, " ") == JoinCleaned(Join(ws1, " "), Join(ws2, " "))
    decreases |ws1|
  {
    JoinOfWordsEmpty(ws2);
    if ws1 == [] {
      assert ws1 + ws2 == ws2;
    } else {
      var w := ws1[0];
      var r := ws1[1..];
      assert ws1 + ws2 == [w] + (r + ws2);
      assert ws1 == [w] + r;
      JoinCons(w, r + ws2, " ");
      JoinCons(w, r, " ");
      JoinAppend(r, ws2);
      JoinOfWordsEmpty(r);
      if r == [] {
        assert r + ws2 == ws2;
      } else if ws2 == [] {
        assert r + ws2 == r;
      } else {
        SpaceAssoc(w + " ", Join(r, " "), Join(ws2, " "));
        Assoc(w, " ", Join(r, " ") + " " + Join(ws2, " "));
      }
    }
  }

  predicate LowerOrSpace(t: string) {
    forall i | 0 <= i < |t| :: 'a' <= t[i] <= 'z' || t[i] == ' '
  }

  lemma RetokenizeIsJoin(t: string)
    requires LowerOrSpace(t)
    ensures Retokenize(t) == Join(Tokenize(t), " ")
  {
    RetokenizeLowerText(t);
  }

  lemma LowerOrSpaceAroundSpace(x: string, y: string)
    requires LowerOrSpace(x) && LowerOrSpace(y)
    ensures LowerOrSpace(x + " " + y)
  {
    var s := x + " " + y;
    forall i | 0 <= i < |s| ensures 'a' <= s[i] <= 'z' || s[i] == ' ' {
      if i < |x| { assert s[i] == x[i]; } else if i > |x| { assert s[i] == y[i - |x| - 1]; }
    }
  }

  /** Re-tokenizing text cut at a space re-tokenizes the two sides. */
  lemma RetokenizeAroundSpace(x: string, y: string)
    requires LowerOrSpace(x) && LowerOrSpace(y)
    ensures Retokenize(x + " " + y) == JoinCleaned(Retokenize(x), Retokenize(y))
  {
    LowerOrSpaceAroundSpace(x, y);
    RetokenizeIsJoin(x);
    RetokenizeIsJoin(y);
    RetokenizeIsJoin(x + " " + y);
    TokenizeAroundSpace(x, y);
    JoinAppend(Tokenize(x), Tokenize(y));
  }

  /** Cleaning link-free text cut at a blank cleans the two sides. */
  lemma CleanTextAroundBlank(x: string, c: char, y: string)
    requires IsBlank(c)
    ensures Retokenize(PrepareText(x + [c] + y))
            == JoinCleaned(Retokenize(PrepareText(x)), Retokenize(PrepareText(y)))
  {
    PrepareTextAroundBlank(x, c, y);
    PrepareTextIsLowerOrSpace(x);
    PrepareTextIsLowerOrSpace(y);
    RetokenizeAroundSpace(PrepareText(x), PrepareText(y));
  }

  // ---------------------------------------------------------------------------
  // Link removal on a text cut at a space
  // ---------------------------------------------------------------------------

  /** A run of link characters stops at the first other character. */
  lemma {:induction false} LinkCharRunBeforeStop(x: string, c: char, y: string)
    requires !IsLinkChar(c)
    ensures LinkCharRun(x + [c] + y) == LinkCharRun(x)
    decreases |x|
  {
    var s := x + [c] + y;
    if x == [] {
      assert s[0] == c;
    } else {
      assert s[0] == x[0] && s[1..] == x[1..] + [c] + y;
      LinkCharRunBeforeStop(x[1..], c, y);
    }
  }

  /** What follows a space has no say in a match before it. */
  lemma MatchLinkBeforeSpace(x: string, y: string)
    ensures MatchLink(x + " " + y) == MatchLink(x)
  {
    var s := x + " " + y;
    assert forall i | 0 <= i < |x| :: s[i] == x[i];
    assert s[|x|] == ' ';
    assert SchemeLength(s) == SchemeLength(x);
    var k := SchemeLength(x);
    if k > 0 {
      assert s[k..] == x[k..] + [' '] + y;
      LinkCharRunBeforeStop(x[k..], ' ', y);
    }
  }

  /** No link spans a space: link removal works on the two sides apart. */
  lemma {:induction false} RemoveLinksAroundSpace(x: string, y: string)
    ensures RemoveLinks(x + " " + y) == RemoveLinks(x) + " " + RemoveLinks(y)
    decreases |x|
  {
    if x == [] {
      var s := x + " " + y;
      assert s == " " + y && s[1..] == y;
      MatchLinkNeedsH(s);
      RemoveLinksCopiesHead(s);
    } else {
      var m := if MatchLink(x) > 0 then MatchLink(x) else 1;
      RemoveLinksAroundSpace(x[m..], y);
      RemoveLinksAroundSpaceStep(x, y, m);
    }
  }

  lemma RemoveLinksAroundSpaceStep(x: string, y: string, m: nat)
    requires x != [] && m == (if MatchLink(x) > 0 then MatchLink(x) else 1)
    requires RemoveLinks(x[m..] + " " + y) == RemoveLinks(x[m..]) + " " + RemoveLinks(y)
    ensures RemoveLinks(x + " " + y) == RemoveLinks(x) + " " + RemoveLinks(y)
  {
    MatchLinkBeforeSpace(x, y);
    SliceAroundSpace(x, y, m);
    if MatchLink(x) > 0 {
      RemoveLinksAroundSpaceMatch(x, y, m);
    } else {
      RemoveLinksAroundSpaceCopy(x, y);
    }
  }

  lemma SliceAroundSpace(x: string, y: string, m: nat)
    requires m <= |x|
    ensures (x + " " + y)[m..] == x[m..] + " " + y
  {
  }

  lemma RemoveLinksAroundSpaceMatch(x: string, y: string, m: nat)
    requires m == MatchLink(x) > 0 && MatchLink(x + " " + y) == m
    requires (x + " " + y)[m..] == x[m..] + " " + y
    requires RemoveLinks(x[m..] + " " + y) == RemoveLinks(x[m..]) + " " + RemoveLinks(y)
    ensures RemoveLinks(x + " " + y) == RemoveLinks(x) + " " + RemoveLinks(y)
  {
    RemoveLinksReplacesMatch(x + " " + y);
    RemoveLinksReplacesMatch(x);
    RemoveLinksAroundSpaceAfter(x, y, m, " ");
  }

  lemma RemoveLinksAroundSpaceCopy(x: string, y: string)
    requires x != [] && MatchLink(x) == 0 && MatchLink(x + " " + y) == 0
    requires (x + " " + y)[1..] == x[1..] + " " + y
    requires RemoveLinks(x[1..] + " " + y) == RemoveLinks(x[1..]) + " " + RemoveLinks(y)
    ensures RemoveLinks(x + " " + y) == RemoveLinks(x) + " " + RemoveLinks(y)
  {
    assert (x + " " + y)[0] == x[0];
    RemoveLinksCopiesHead(x + " " + y);
    RemoveLinksCopiesHead(x);
    RemoveLinksAroundSpaceAfter(x, y, 1, [x[0]]);
  }

  lemma RemoveLinksAroundSpaceAfter(x: string, y: string, m: nat, h: string)
    requires m <= |x|
    requires RemoveLinks(x + " " + y) == h + RemoveLinks(x[m..] + " " + y)
    requires RemoveLinks(x) == h + RemoveLinks(x[m..])
    requires RemoveLinks(x[m..] + " " + y) == RemoveLinks(x[m..]) + " " + RemoveLinks(y)
    ensures RemoveLinks(x + " " + y) == RemoveLinks(x) + " " + RemoveLinks(y)
  {
    SpaceAssoc(h, RemoveLinks(x[m..]), RemoveLinks(y));
  }

  lemma SpaceAssoc(h: string, a: string, b: string)
    ensures h + (a + " " + b) == (h + a) + " " + b
  {
  }

  // ---------------------------------------------------------------------------
  // `clean_tweet` piece by piece
  // ---------------------------------------------------------------------------

  /** Words separated by a space are cleaned independently. */
  lemma CleanTweetAroundSpace(x: string, y: string)
    ensures CleanTweet(x + " " + y) == JoinCleaned(CleanTweet(x), CleanTweet(y))
  {
    RemoveLinksAroundSpace(x, y);
    CleanTextAroundBlank(RemoveLinks(x), ' ', RemoveLinks(y));
    assert RemoveLinks(x) + " " + RemoveLinks(y) == RemoveLinks(x) + [' '] + RemoveLinks(y);
  }

  /** A match stays a match whatever follows it. */
  lemma MatchLinkExtends(a: string, b: string)
    ensures MatchLink(a) > 0 ==> MatchLink(a + b) > 0
  {
    if MatchLink(a) > 0 {
      MatchLinkHeadHasNoSpace(a);
      var q := HeadLength(a);
      assert a[..q] == (a + b)[..q];
      MatchLinkDecidedByHead(a, a + b);
    }
  }

  /** A link start anywhere in a part is a link start in the whole. */
  lemma NoLinkStartInFront(x: string, y: string)
    requires NoLinkStart(x + y)
    ensures NoLinkStart(x)
  {
    forall i | 0 <= i < |x| ensures MatchLink(x[i..]) == 0 {
      assert (x + y)[i..] == x[i..] + y;
      MatchLinkExtends(x[i..], y);
    }
  }

  lemma NoLinkStartBehind(x: string, y: string)
    requires NoLinkStart(x + y)
    ensures NoLinkStart(y)
  {
    forall i | 0 <= i < |y| ensures MatchLink(y[i..]) == 0 {
      assert (x + y)[|x| + i..] == y[i..];
    }
  }

  /** Where no link can start, any character that the cleaning blanks
      separates words just as a space does. */
  lemma CleanTweetAroundBlank(x: string, c: char, y: string)
    requires IsBlank(c) && NoLinkStart(x + [c] + y)
    ensures CleanTweet(x + [c] + y) == JoinCleaned(CleanTweet(x), CleanTweet(y))
  {
    BlankRegroups(x, c, y);
    NoLinkStartInFront(x, [c] + y);
    NoLinkStartBehind(x + [c], y);
    RemoveLinksKeepsNoLinkStart(x + [c] + y);
    RemoveLinksKeepsNoLinkStart(x);
    RemoveLinksKeepsNoLinkStart(y);
    CleanTextAroundBlank(x, c, y);
  }

  lemma BlankRegroups(x: string, c: char, y: string)
    ensures x + [c] + y == x + ([c] + y) == (x + [c]) + y
  {
  }

  /** Without a lower-case 'h' there is nowhere a link could start. */
  lemma NoLinkStartWithoutH(s: string)
    requires 'h' !in s
    ensures NoLinkStart(s)
  {
    forall i | 0 <= i < |s| ensures MatchLink(s[i..]) == 0 {
      MatchLinkNeedsH(s[i..]);
    }
  }

  /** A word of ASCII letters cleans to its lower-case form. */
  lemma CleanTweetOfWord(w: string)
    requires w != [] && forall i | 0 <= i < |w| :: IsAsciiLetter(w[i])
    ensures CleanTweet(w) == Lower(w)
  {
    RemoveLinksWithoutColon(w);
    PrepareTextOfWord(w);
    RetokenizeOfLowerWord(Lower(w));
  }

  lemma PrepareTextOfWord(w: string)
    requires forall i | 0 <= i < |w| :: IsAsciiLetter(w[i])
    ensures PrepareText(w) == Lower(w)
  {
    assert '#' !in w;
    assert ReplaceNonLetters(w) == w;
  }

  lemma RetokenizeOfLowerWord(l: string)
    requires forall i | 0 <= i < |l| :: 'a' <= l[i] <= 'z'
    ensures Retokenize(l) == l
  {
    RetokenizeIsJoin(l);
    JoinTokenize(l);
  }

  /** A hash mark is deleted without leaving a space: the text on its two
      sides is cleaned as if it had never been there. */
  lemma HashMarkVanishes(x: string, y: string)
    requires ':' !in x && ':' !in y
    ensures CleanTweet(x + "#" + y) == CleanTweet(x + y)
  {
    ColonFreeConcat(x + "#", y);
    ColonFreeConcat(x, y);
    RemoveLinksWithoutColon(x + "#" + y);
    RemoveLinksWithoutColon(x + y);
    PrepareTextDropsHash(x, y);
  }

  lemma LettersHaveNoColon(w: string)
    requires forall i | 0 <= i < |w| :: IsAsciiLetter(w[i])
    ensures ':' !in w
  {
  }

  lemma ColonFreeHash(w: string)
    requires ':' !in w
    ensures ':' !in "#" + w
  {
  }

  lemma PrepareTextDropsLeadingHash(w: string)
    ensures PrepareText("#" + w) == PrepareText(w)
  {
    PrepareTextConcat("#", w);
    PrepareTextOfHash();
  }

  /** A hash mark at the start of a text without links vanishes. */
  lemma HashAtStart(w: string)
    requires ':' !in w
    ensures CleanTweet("#" + w) == CleanTweet(w)
  {
    ColonFreeHash(w);
    RemoveLinksWithoutColon("#" + w);
    RemoveLinksWithoutColon(w);
    PrepareTextDropsLeadingHash(w);
  }

  /** A hashtag cleans to its word, lower-cased. */
  lemma HashtagCleansToWord(w: string)
    requires w != [] && forall i | 0 <= i < |w| :: IsAsciiLetter(w[i])
    ensures CleanTweet("#" + w) == Lower(w)
  {
    LettersHaveNoColon(w);
    HashAtStart(w);
    CleanTweetOfWord(w);
  }

  lemma ColonFreeConcat(x: string, y: string)
    requires ':' !in x && ':' !in y
    ensures ':' !in x + y
  {
  }

  lemma PrepareTextDropsHash(x: string, y: string)
    ensures PrepareText(x + "#" + y) == PrepareText(x + y)
  {
    PrepareTextConcat(x + "#", y);
    PrepareTextConcat(x, "#");
    PrepareTextConcat(x, y);
    PrepareTextOfHash();
    assert PrepareText(x) + [] == PrepareText(x);
  }

  lemma PrepareTextOfHash()
    ensures PrepareText("#") == []
  {
    assert DeleteHashes("#") == [];
  }

  /** The scan takes the whole of a link that is followed by a character
      outside the link class. */
  lemma MatchLinkOfLink(l: string, rest: string)
    requires IsLink(l) && (rest == [] || !IsLinkChar(rest[0]))
    ensures MatchLink(l + rest) == |l|
  {
    var s := l + rest;
    assert s[..|l|] == l;
    LinkPrefixWithinMatch(s, |l|);
    MatchLinkIsLongestLink(s);
    var m := MatchLink(s);
    if m > |l| {
      LinkGoesOn(l, rest, m);
    }
  }

  /** A link longer than the link `l` inside `l + rest` continues into `rest`
      with a link character. */
  lemma LinkGoesOn(l: string, rest: string, m: nat)
    requires IsLink(l) && |l| < m <= |l + rest| && IsLink((l + rest)[..m])
    ensures rest != [] && IsLinkChar(rest[0])
  {
    var t := (l + rest)[..m];
    var i := |l|;
    assert t[i] == rest[0];
    if |t| > 8 && t[..8] == "https://" && AllLinkChars(t[8..]) {
      assert t[i] == t[8..][i - 8];
    } else {
      assert t[i] == t[7..][i - 7];
    }
  }

  /** A link followed by a character outside the link class is cleaned as
      if it were a space. */
  lemma CleanTweetOfLinkThen(l: string, rest: string)
    requires IsLink(l) && (rest == [] || !IsLinkChar(rest[0]))
    ensures CleanTweet(l + rest) == CleanTweet(" " + rest)
  {
    RemoveLinksOfLinkThen(l, rest);
  }

  lemma RemoveLinksOfLinkThen(l: string, rest: string)
    requires IsLink(l) && (rest == [] || !IsLinkChar(rest[0]))
    ensures RemoveLinks(l + rest) == RemoveLinks(" " + rest)
  {
    MatchLinkOfLink(l, rest);
    var s := l + rest;
    assert s[|l|..] == rest;
    RemoveLinksReplacesMatch(s);
    RemoveLinksOfLeadingSpace(rest);
  }

  /** A blank space cleans to nothing. */
  lemma CleanTweetOfSpace()
    ensures CleanTweet(" ") == []
  {
    CleanTweetOfLetterless(" ");
  }

  lemma CleanTweetOfNothing()
    ensures CleanTweet([]) == []
  {
    CleanTweetOfLetterless([]);
  }

  /** A leading space makes no difference. */
  lemma CleanTweetOfLeadingSpace(y: string)
    ensures CleanTweet(" " + y) == CleanTweet(y)
  {
    RemoveLinksOfLeadingSpace(y);
    PrepareTextOfLeadingSpace(RemoveLinks(y));
    RetokenizeOfLeadingSpace(PrepareText(RemoveLinks(y)));
  }

  lemma RemoveLinksOfLeadingSpace(y: string)
    ensures RemoveLinks(" " + y) == " " + RemoveLinks(y)
  {
    var s := " " + y;
    MatchLinkNeedsH(s);
    RemoveLinksCopiesHead(s);
    assert s[1..] == y;
  }

  lemma PrepareTextOfLeadingSpace(t: string)
    ensures PrepareText(" " + t) == " " + PrepareText(t)
  {
    PrepareTextConcat(" ", t);
    assert PrepareText(" ") == " ";
  }

  lemma RetokenizeOfLeadingSpace(u: string)
    ensures Retokenize(" " + u) == Retokenize(u)
  {
    TokenizeSpaceStep(" " + u);
    assert (" " + u)[1..] == u;
  }

  /** A tweet that is one link cleans to the empty string. */
  lemma CleanTweetOfLink(l: string)
    requires IsLink(l)
    ensures CleanTweet(l) == []
  {
    CleanTweetOfLinkThen(l, []);
    assert l + [] == l;
    CleanTweetOfSpace();
  }
}
