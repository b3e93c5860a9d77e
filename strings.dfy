/** The Python `str` operations the preprocessing code relies on:
    `isspace`, `strip` (as `lstrip` followed by `rstrip`) and `join`.
    `split` is here as the reference inverse of `join`: the code never
    splits, but splitting a joined text is how its lines are stated. */
module Strings {

  /** The characters for which Python's `str.isspace()` holds. */
  predicate IsWhitespace(c: char) {
    c == ' ' || ('\t' <= c <= '\r') || ('\U{1C}' <= c <= '\U{1F}')
    || c == '\U{85}' || c == '\U{A0}' || c == '\U{1680}'
    || ('\U{2000}' <= c <= '\U{200A}') || c == '\U{2028}' || c == '\U{2029}'
    || c == '\U{202F}' || c == '\U{205F}' || c == '\U{3000}'
  }

  /** `s` neither starts nor ends with whitespace. */
  predicate Trimmed(s: string) {
    s == [] || (!IsWhitespace(s[0]) && !IsWhitespace(s[|s| - 1]))
  }

  /** Drops the longest all-whitespace prefix (`str.lstrip()`). */
  function StripLeft(s: string): (r: string)
    ensures |r| <= |s| && r == s[|s| - |r|..]
    ensures forall i | 0 <= i < |s| - |r| :: IsWhitespace(s[i])
    ensures r == [] || !IsWhitespace(r[0])
  {
    if s != [] && IsWhitespace(s[0]) then StripLeft(s[1..]) else s
  }

  /** Drops the longest all-whitespace suffix (`str.rstrip()`). */
  function StripRight(s: string): (r: string)
    ensures |r| <= |s| && r == s[..|r|]
    ensures forall i | |r| <= i < |s| :: IsWhitespace(s[i])
    ensures r == [] || !IsWhitespace(r[|r| - 1])
  {
    if s != [] && IsWhitespace(s[|s| - 1]) then StripRight(s[..|s| - 1]) else s
  }

  lemma StripLeftSkipsWhitespace(s: string)
    requires s != [] && IsWhitespace(s[0])
    ensures StripLeft(s) == StripLeft(s[1..])
  {
  }

  lemma StripRightSkipsWhitespace(s: string)
    requires s != [] && IsWhitespace(s[|s| - 1])
    ensures StripRight(s) == StripRight(s[..|s| - 1])
  {
  }

  lemma StripLeftOfNonBlankStart(s: string)
    requires s != [] && !IsWhitespace(s[0])
    ensures StripLeft(s) == s
  {
  }

  lemma StripRightOfNonBlankEnd(s: string)
    requires s != [] && !IsWhitespace(s[|s| - 1])
    ensures StripRight(s) == s
  {
  }

  /** `str.strip()` with no argument. */
  function Strip(s: string): string {
    StripRight(StripLeft(s))
  }

  lemma StripKeepsTrimmed(s: string)
    requires Trimmed(s)
    ensures Strip(s) == s
  {
  }

  /** `sep.join(parts)`. */
  function Join(parts: seq<string>, sep: string): string {
    if parts == [] then []
    else if |parts| == 1 then parts[0]
    else parts[0] + sep + Join(parts[1..], sep)
  }

  lemma {:induction false} JoinCons(part: string, parts: seq<string>, sep: string)
    ensures Join([part] + parts, sep) == if parts == [] then part else part + sep + Join(parts, sep)
  {
    assert ([part] + parts)[1..] == parts;
  }

  /** Appending one part at the end of a join. */
  lemma {:induction false} JoinSnoc(parts: seq<string>, last: string, sep: string)
    ensures Join(parts + [last], sep) == if parts == [] then last else Join(parts, sep) + sep + last
    decreases |parts|
  {
    if |parts| > 1 {
      assert (parts + [last])[1..] == parts[1..] + [last];
      JoinSnoc(parts[1..], last, sep);
    } else if |parts| == 1 {
      assert (parts + [last])[1..] == [last];
    }
  }

  /** Python's `s.split(sep)` for a one-character separator: the pieces
      between the separators, empty pieces included. */
  function Split(s: string, sep: char): (parts: seq<string>)
    ensures |parts| >= 1
    ensures forall k, i | 0 <= k < |parts| && 0 <= i < |parts[k]| :: parts[k][i] != sep
    decreases |s|
  {
    if s == [] then [[]]
    else
      var rest := Split(s[1..], sep);
      if s[0] == sep then [[]] + rest else [[s[0]] + rest[0]] + rest[1..]
  }

  /** Splitting on a character no part contains undoes the join. */
  lemma {:induction false} SplitJoin(parts: seq<string>, sep: char)
    requires parts != []
    requires forall k, i | 0 <= k < |parts| && 0 <= i < |parts[k]| :: parts[k][i] != sep
    ensures Split(Join(parts, [sep]), sep) == parts
    decreases |parts|, |parts[0]|
  {
    var p := parts[0];
    var s := Join(parts, [sep]);
    if p == [] {
      if |parts| > 1 {
        assert s == [sep] + Join(parts[1..], [sep]);
        SplitSeparatorStep(s, sep);
        assert s[1..] == Join(parts[1..], [sep]);
        SplitJoin(parts[1..], sep);
        assert [[]] + parts[1..] == parts;
      }
    } else {
      var tail := [p[1..]] + parts[1..];
      assert tail[1..] == parts[1..];
      assert forall k, i | 0 <= k < |tail| && 0 <= i < |tail[k]| :: tail[k][i] != sep by {
        forall k, i | 0 <= k < |tail| && 0 <= i < |tail[k]| ensures tail[k][i] != sep {
          if k == 0 { assert tail[k][i] == parts[0][i + 1]; } else { assert tail[k] == parts[k]; }
        }
      }
      SplitJoin(tail, sep);
      JoinDropsFirstChar(parts, sep);
      SplitCharStep(s, sep);
      assert [s[0]] + tail[0] == [p[0]] + p[1..] == p;
      assert [p] + parts[1..] == parts;
    }
  }

  lemma SplitSeparatorStep(s: string, sep: char)
    requires s != [] && s[0] == sep
    ensures Split(s, sep) == [[]] + Split(s[1..], sep)
  {
  }

  lemma SplitCharStep(s: string, sep: char)
    requires s != [] && s[0] != sep
    ensures Split(s, sep) == [[s[0]] + Split(s[1..], sep)[0]] + Split(s[1..], sep)[1..]
  {
  }

  /** Dropping the first character of the first part of a join. */
  lemma JoinDropsFirstChar(parts: seq<string>, sep: char)
    requires parts != [] && parts[0] != [] && parts[0][0] != sep
    ensures var s := Join(parts, [sep]);
            s != [] && s[0] == parts[0][0] && s[1..] == Join([parts[0][1..]] + parts[1..], [sep])
  {
    var p := parts[0];
    var tail := [p[1..]] + parts[1..];
    assert tail[1..] == parts[1..];
    if |parts| == 1 {
      assert Join(parts, [sep]) == p;
    } else {
      assert Join(parts, [sep]) == p + [sep] + Join(parts[1..], [sep]);
      assert Join(tail, [sep]) == p[1..] + [sep] + Join(parts[1..], [sep]);
    }
  }
}
