/**
 * The string primitives the command parser relies on, over ASCII:
 * `String.trim`, `toLowerCase`, `startsWith`, `contains`, and `String.split`
 * with the two regular expressions the parser uses, `\s+` and
 * `(?i)\s+word\s+`.
 */
module Text {
  import opened Wrappers

  /** The characters of the regular-expression class `\s`. */
  predicate IsSpace(c: char) {
    c == ' ' || c == '\t' || c == '\n' || c == '\U{000B}' || c == '\U{000C}' || c == '\r'
  }

  /** `String.trim` strips every character at or below U+0020. */
  predicate IsBlank(c: char) {
    c <= ' '
  }

  /** A token a user types: not empty, and every character visible. */
  predicate IsPrintable(w: string) {
    |w| > 0 && forall k :: 0 <= k < |w| ==> !IsBlank(w[k])
  }

  /** Holds no `\s` character. */
  predicate NoSpace(w: string) {
    forall k :: 0 <= k < |w| ==> !IsSpace(w[k])
  }

  // ----- Case -----

  function LowerChar(c: char): (l: char)
    ensures 'A' <= c <= 'Z' ==> 'a' <= l <= 'z'
    ensures !('A' <= c <= 'Z') ==> l == c
  {
    if 'A' <= c <= 'Z' then (c as int + 32) as char else c
  }

  /** `toLowerCase`, for the ASCII letters. */
  function Lower(s: string): (l: string)
    ensures |l| == |s|
    ensures forall i :: 0 <= i < |s| ==> l[i] == LowerChar(s[i])
  {
    seq(|s|, i requires 0 <= i < |s| => LowerChar(s[i]))
  }

  /** `equalsIgnoreCase`, for the ASCII letters. */
  predicate EqualsIgnoreCase(a: string, b: string) {
    |a| == |b| && forall k :: 0 <= k < |a| ==> LowerChar(a[k]) == LowerChar(b[k])
  }

  /** Equal ignoring case is equal in lower case. */
  lemma EqualsIgnoreCaseLower(a: string, b: string)
    ensures EqualsIgnoreCase(a, b) <==> Lower(a) == Lower(b)
  {
    if Lower(a) == Lower(b) {
      forall k | 0 <= k < |a|
        ensures LowerChar(a[k]) == LowerChar(b[k])
      {
        assert Lower(a)[k] == Lower(b)[k];
      }
    }
  }

  /** Text equal, ignoring case, to lower-case text lower-cases to it. */
  lemma LowerOfEqual(v: string, w: string)
    requires EqualsIgnoreCase(v, w) && IsLowerCase(w)
    ensures Lower(v) == w
  {
    EqualsIgnoreCaseLower(v, w);
    LowerKeeps(w);
  }

  /** Lower-case ASCII only. */
  predicate IsLowerCase(s: string) {
    forall k :: 0 <= k < |s| ==> !('A' <= s[k] <= 'Z')
  }

  lemma LowerIsLowerCase(s: string)
    ensures IsLowerCase(Lower(s))
  {
    forall k | 0 <= k < |s|
      ensures !('A' <= Lower(s)[k] <= 'Z')
    {
      assert Lower(s)[k] == LowerChar(s[k]);
    }
  }

  /** Lower-case text is its own lower case. */
  lemma LowerKeeps(s: string)
    requires IsLowerCase(s)
    ensures Lower(s) == s
  {
  }

  lemma LowerSlice(s: string, a: nat, b: nat)
    requires a <= b <= |s|
    ensures Lower(s)[a..b] == Lower(s[a..b])
  {
  }

  /**
   * Text whose lower case starts with `prefix` and holds `sub` at `i`:
   * `toLowerCase` of it starts with and contains them.
   */
  lemma LowerShape(s: string, prefix: string, sub: string, i: nat)
    requires |prefix| <= |s| && Lower(s[..|prefix|]) == prefix
    requires i + |sub| <= |s| && Lower(s[i..i + |sub|]) == sub
    ensures StartsWith(Lower(s), prefix)
    ensures Contains(Lower(s), sub)
  {
    LowerSlice(s, 0, |prefix|);
    LowerSlice(s, i, i + |sub|);
    assert OccursAt(Lower(s), sub, i);
  }

  // ----- Trim -----

  function TrimStart(s: string): (t: string)
    ensures |t| <= |s| && t == s[|s| - |t|..]
    ensures |t| > 0 ==> !IsBlank(t[0])
    ensures forall i :: 0 <= i < |s| - |t| ==> IsBlank(s[i])
  {
    if |s| > 0 && IsBlank(s[0]) then TrimStart(s[1..]) else s
  }

  function TrimEnd(s: string): (t: string)
    ensures |t| <= |s| && t == s[..|t|]
    ensures |t| > 0 ==> !IsBlank(t[|t| - 1])
    ensures forall i :: |t| <= i < |s| ==> IsBlank(s[i])
  {
    if |s| > 0 && IsBlank(s[|s| - 1]) then TrimEnd(s[..|s| - 1]) else s
  }

  /**
   * `String.trim`: the text left after the blank characters at both ends
   * are stripped; empty exactly when every character is blank.
   */
  function Trim(s: string): (t: string)
    ensures |t| > 0 ==> !IsBlank(t[0]) && !IsBlank(t[|t| - 1])
    ensures |t| == 0 <==> forall i :: 0 <= i < |s| ==> IsBlank(s[i])
  {
    TrimEnd(TrimStart(s))
  }

  /** Text whose ends are not blank is left alone. */
  lemma TrimKeeps(s: string)
    requires |s| == 0 || (!IsBlank(s[0]) && !IsBlank(s[|s| - 1]))
    ensures Trim(s) == s
  {
  }

  /** Visible words joined by single spaces are already trimmed. */
  lemma TrimJoin(words: seq<string>)
    requires |words| > 0 && IsPrintable(words[0]) && IsPrintable(words[|words| - 1])
    ensures Trim(Join(words)) == Join(words)
  {
    TrimKeeps(Join(words));
  }

  lemma {:induction false} TrimStartPast(lead: string, rest: string)
    requires forall i :: 0 <= i < |lead| ==> IsBlank(lead[i])
    requires |rest| > 0 && !IsBlank(rest[0])
    ensures TrimStart(lead + rest) == rest
  {
    if |lead| > 0 {
      assert (lead + rest)[1..] == lead[1..] + rest;
      TrimStartPast(lead[1..], rest);
    }
  }

  lemma {:induction false} TrimEndPast(rest: string, trail: string)
    requires forall i :: 0 <= i < |trail| ==> IsBlank(trail[i])
    requires |rest| > 0 && !IsBlank(rest[|rest| - 1])
    ensures TrimEnd(rest + trail) == rest
  {
    if |trail| > 0 {
      assert (rest + trail)[..|rest + trail| - 1] == rest + trail[..|trail| - 1];
      TrimEndPast(rest, trail[..|trail| - 1]);
    }
  }

  /** Blank characters around a text with visible ends are stripped, and only those. */
  lemma TrimSurrounded(lead: string, t: string, trail: string)
    requires forall i :: 0 <= i < |lead| ==> IsBlank(lead[i])
    requires forall i :: 0 <= i < |trail| ==> IsBlank(trail[i])
    requires |t| > 0 && !IsBlank(t[0]) && !IsBlank(t[|t| - 1])
    ensures Trim(lead + t + trail) == t
  {
    assert lead + t + trail == lead + (t + trail);
    TrimStartPast(lead, t + trail);
    TrimEndPast(t, trail);
  }

  lemma TrimIdempotent(s: string)
    ensures Trim(Trim(s)) == Trim(s)
  {
    TrimKeeps(Trim(s));
  }

  // ----- Search -----

  /** `startsWith`. */
  predicate StartsWith(s: string, prefix: string) {
    |prefix| <= |s| && s[..|prefix|] == prefix
  }

  /** `contains`. */
  predicate Contains(s: string, sub: string) {
    exists i :: 0 <= i <= |s| - |sub| && OccursAt(s, sub, i)
  }

  predicate OccursAt(s: string, sub: string, i: int) {
    0 <= i <= |s| - |sub| && s[i..i + |sub|] == sub
  }

  // ----- Splitting on a regular expression -----

  /** The two delimiters the parser splits on: `\s+`, and `(?i)\s+word\s+` for a lower-case word. */
  datatype Delimiter = Spaces | Keyword(word: string)

  /** The end of the run of `\s` characters that starts at `i`. */
  function SpaceRunEnd(s: string, i: nat): (j: nat)
    requires i <= |s|
    ensures i <= j <= |s|
    ensures forall k :: i <= k < j ==> IsSpace(s[k])
    ensures j == |s| || !IsSpace(s[j])
    decreases |s| - i
  {
    if i < |s| && IsSpace(s[i]) then SpaceRunEnd(s, i + 1) else i
  }

  /** `word` occurs at `i`, compared without regard to ASCII case. */
  predicate WordAt(s: string, i: nat, word: string) {
    i + |word| <= |s| && forall k :: 0 <= k < |word| ==> LowerChar(s[i + k]) == word[k]
  }

  /**
   * Where a match of the delimiter starting at `i` ends, if one does. Each
   * `\s+` takes its whole run of white space: the word never starts with
   * white space, so the greedy runs never have to give a character back.
   */
  function MatchAt(s: string, i: nat, d: Delimiter): (e: Option<nat>)
    requires i <= |s|
    ensures e.Some? ==> i < e.value <= |s| && IsSpace(s[i])
    ensures d.Spaces? ==> (e.Some? <==> i < |s| && IsSpace(s[i]))
  {
    if i < |s| && IsSpace(s[i]) then
      var j := SpaceRunEnd(s, i);
      match d
      case Spaces => Some(j)
      case Keyword(word) =>
        var k := j + |word|;
        if WordAt(s, j, word) && k < |s| && IsSpace(s[k]) then Some(SpaceRunEnd(s, k)) else None
    else
      None
  }

  /** The leftmost match starting at or after `i`, as its start and end. */
  function FirstMatch(s: string, d: Delimiter, i: nat): (m: Option<(nat, nat)>)
    requires i <= |s|
    ensures m.Some? ==> i <= m.value.0 < m.value.1 <= |s| && MatchAt(s, m.value.0, d) == Some(m.value.1)
    ensures m.Some? ==> forall k :: i <= k < m.value.0 ==> MatchAt(s, k, d).None?
    ensures m.None? ==> forall k :: i <= k <= |s| ==> MatchAt(s, k, d).None?
    decreases |s| - i
  {
    if i == |s| then None
    else if MatchAt(s, i, d).Some? then Some((i, MatchAt(s, i, d).value))
    else FirstMatch(s, d, i + 1)
  }

  /**
   * The text between successive matches. After a match the search resumes
   * where it ended; a match depends only on the characters from its start
   * onwards, so that search is a search of the remaining text.
   */
  function Pieces(s: string, d: Delimiter): (ps: seq<string>)
    ensures |ps| > 0
    decreases |s|
  {
    match FirstMatch(s, d, 0)
    case None => [s]
    case Some((a, e)) => [s[..a]] + Pieces(s[e..], d)
  }

  function DropTrailingEmpty(ps: seq<string>): (r: seq<string>)
    ensures |r| <= |ps| && r == ps[..|r|]
    ensures |r| > 0 ==> r[|r| - 1] != []
    ensures forall i :: |r| <= i < |ps| ==> ps[i] == []
  {
    if |ps| > 0 && ps[|ps| - 1] == [] then DropTrailingEmpty(ps[..|ps| - 1]) else ps
  }

  /**
   * `String.split` with no limit: the input itself when nothing matches,
   * otherwise the pieces with the trailing empty ones dropped.
   */
  function Split(s: string, d: Delimiter): (parts: seq<string>)
    ensures FirstMatch(s, d, 0).None? ==> parts == [s]
    ensures FirstMatch(s, d, 0).Some? ==> |parts| <= |Pieces(s, d)| && parts == Pieces(s, d)[..|parts|]
    ensures FirstMatch(s, d, 0).Some? ==> forall i :: |parts| <= i < |Pieces(s, d)| ==> Pieces(s, d)[i] == []
    ensures FirstMatch(s, d, 0).Some? && |parts| > 0 ==> parts[|parts| - 1] != []
  {
    if FirstMatch(s, d, 0).None? then [s] else DropTrailingEmpty(Pieces(s, d))
  }

  /** The matches found from `i` on: none before `a`, one at `a`. */
  lemma FirstMatchIs(s: string, d: Delimiter, i: nat, a: nat)
    requires i <= a <= |s|
    requires forall k :: i <= k < a ==> MatchAt(s, k, d).None?
    requires MatchAt(s, a, d).Some?
    ensures FirstMatch(s, d, i) == Some((a, MatchAt(s, a, d).value))
  {
    var m := FirstMatch(s, d, i);
    assert m.Some?;
    assert m.value.0 == a;
  }

  /** Text without white space has no match of either delimiter. */
  lemma NoMatchWithoutSpace(s: string, d: Delimiter)
    requires NoSpace(s)
    ensures FirstMatch(s, d, 0).None?
    ensures Pieces(s, d) == [s]
  {
  }

  // ----- Whitespace tokens -----

  /**
   * Splitting on `\s+` text that neither starts nor ends with white space
   * yields non-empty tokens without white space.
   */
  lemma {:induction false} SpaceTokens(s: string)
    requires |s| > 0 && !IsSpace(s[0]) && !IsSpace(s[|s| - 1])
    ensures forall i :: 0 <= i < |Pieces(s, Spaces)| ==> |Pieces(s, Spaces)[i]| > 0 && NoSpace(Pieces(s, Spaces)[i])
    decreases |s|
  {
    var ps := Pieces(s, Spaces);
    match FirstMatch(s, Spaces, 0)
    case None =>
      assert ps == [s];
      forall k | 0 <= k < |s|
        ensures !IsSpace(s[k])
      {
        assert MatchAt(s, k, Spaces).None?;
      }
    case Some((a, e)) =>
      assert MatchAt(s, 0, Spaces).None?;
      forall k | 0 <= k < a
        ensures !IsSpace(s[..a][k])
      {
        assert MatchAt(s, k, Spaces).None?;
      }
      assert e == SpaceRunEnd(s, a);
      if e == |s| {
        assert false;
      }
      assert s[e..][0] == s[e];
      SpaceTokens(s[e..]);
      assert ps == [s[..a]] + Pieces(s[e..], Spaces);
  }

  /** A non-empty run of white space, as `\s+` matches it. */
  predicate IsSpaceRun(sep: string) {
    |sep| > 0 && forall k :: 0 <= k < |sep| ==> IsSpace(sep[k])
  }

  /** The words with a separator between each two: `words[0] + seps[0] + words[1] + …`. */
  function Interleave(words: seq<string>, seps: seq<string>): (s: string)
    requires |words| > 0 && |seps| == |words| - 1
    ensures |words[0]| > 0 ==> |s| > 0 && s[0] == words[0][0]
    ensures |words[|words| - 1]| > 0 ==> |s| > 0 && s[|s| - 1] == words[|words| - 1][|words[|words| - 1]| - 1]
  {
    if |words| == 1 then words[0] else words[0] + seps[0] + Interleave(words[1..], seps[1..])
  }

  /** `n` single spaces, the separators of a phrase typed the plain way. */
  function SingleSpaces(n: nat): (seps: seq<string>)
    ensures |seps| == n && forall i :: 0 <= i < n ==> seps[i] == " "
  {
    if n == 0 then [] else [" "] + SingleSpaces(n - 1)
  }

  /** The words joined by single spaces. */
  function Join(words: seq<string>): (s: string)
    requires |words| > 0
    ensures |words[0]| > 0 ==> |s| > 0 && s[0] == words[0][0]
    ensures |words[|words| - 1]| > 0 ==> |s| > 0 && s[|s| - 1] == words[|words| - 1][|words[|words| - 1]| - 1]
  {
    if |words| == 1 then words[0] else words[0] + " " + Join(words[1..])
  }

  /** Joining with single spaces is interleaving with single-space separators. */
  lemma {:induction false} JoinInterleaves(words: seq<string>)
    requires |words| > 0
    ensures Join(words) == Interleave(words, SingleSpaces(|words| - 1))
    decreases |words|
  {
    if |words| > 1 {
      JoinInterleaves(words[1..]);
      assert SingleSpaces(|words| - 1)[1..] == SingleSpaces(|words| - 2);
    }
  }

  /** The first word, a space and the others joined. */
  lemma JoinCons(words: seq<string>)
    requires |words| > 1
    ensures Join(words) == words[0] + " " + Join(words[1..])
  {
  }

  /** The joined text begins with the first word, then a space or nothing. */
  lemma JoinStart(words: seq<string>)
    requires |words| > 0
    ensures |words[0]| <= |Join(words)| && Join(words)[..|words[0]|] == words[0]
    ensures |words| == 1 ==> Join(words) == words[0]
    ensures |words| > 1 ==> Join(words)[|words[0]|] == ' '
  {
    if |words| > 1 {
      JoinCons(words);
    }
  }

  /** Joining one more word appends a space and the word. */
  lemma {:induction false} JoinSnoc(words: seq<string>, w: string)
    requires |words| > 0
    ensures Join(words + [w]) == Join(words) + " " + w
    decreases |words|
  {
    JoinCons(words + [w]);
    assert (words + [w])[1..] == words[1..] + [w];
    if |words| > 1 {
      JoinSnoc(words[1..], w);
      JoinCons(words);
    }
  }

  /** The joined text ends with the last word, after a space or nothing. */
  lemma JoinEnd(words: seq<string>)
    requires |words| > 0
    ensures var j := Join(words); var last := words[|words| - 1];
      && |last| <= |j| && j[|j| - |last|..] == last
      && (|words| == 1 ==> |j| == |last|)
      && (|words| > 1 ==> |last| < |j| && j[|j| - |last| - 1] == ' ')
  {
    var n := |words|;
    if n > 1 {
      assert words[..n - 1] + [words[n - 1]] == words;
      JoinSnoc(words[..n - 1], words[n - 1]);
      SpaceThenLast(Join(words[..n - 1]), words[n - 1]);
    }
  }

  lemma SpaceThenLast(p: string, w: string)
    ensures var t := p + " " + w; t[|t| - |w|..] == w && t[|t| - |w| - 1] == ' '
  {
  }

  /** The run of white space from `i` ends at `j`. */
  lemma {:induction false} SpaceRunOver(s: string, i: nat, j: nat)
    requires i <= j <= |s|
    requires forall k :: i <= k < j ==> IsSpace(s[k])
    requires j == |s| || !IsSpace(s[j])
    ensures SpaceRunEnd(s, i) == j
    decreases j - i
  {
    if i < j {
      SpaceRunOver(s, i + 1, j);
    }
  }

  /**
   * Splitting on `\s+` tokens without white space, separated by runs of
   * white space, gives the tokens back.
   */
  lemma {:induction false} SplitInterleave(words: seq<string>, seps: seq<string>)
    requires |words| > 0 && |seps| == |words| - 1
    requires forall i :: 0 <= i < |words| ==> |words[i]| > 0 && NoSpace(words[i])
    requires forall i :: 0 <= i < |seps| ==> IsSpaceRun(seps[i])
    ensures Pieces(Interleave(words, seps), Spaces) == words
  {
    var w := words[0];
    assert NoSpace(w);
    if |words| == 1 {
      NoMatchWithoutSpace(w, Spaces);
    } else {
      var sep := seps[0];
      var rest := Interleave(words[1..], seps[1..]);
      var s := w + sep + rest;
      assert IsSpaceRun(sep);
      assert |words[1]| > 0 && NoSpace(words[1]);
      forall k | 0 <= k < |w|
        ensures MatchAt(s, k, Spaces).None?
      {
        assert s[k] == w[k];
      }
      assert s[|w| + |sep|] == rest[0];
      assert forall k :: |w| <= k < |w| + |sep| ==> s[k] == sep[k - |w|];
      SpaceRunOver(s, |w|, |w| + |sep|);
      FirstMatchIs(s, Spaces, 0, |w|);
      assert s[..|w|] == w && s[|w| + |sep|..] == rest;
      SplitInterleave(words[1..], seps[1..]);
      assert words == [w] + words[1..];
    }
  }

  // ----- Keyword phrases -----

  /** A word whose lower case is visible is visible too. */
  lemma LowerPrintable(v: string, w: string)
    requires Lower(v) == w && IsPrintable(w)
    ensures IsPrintable(v)
  {
    forall k | 0 <= k < |v|
      ensures !IsBlank(v[k])
    {
      assert Lower(v)[k] == LowerChar(v[k]);
      assert !IsBlank(w[k]);
    }
  }

  lemma LowerAppend(a: string, b: string)
    ensures Lower(a + b) == Lower(a) + Lower(b)
  {
  }

  /** A run of white space in a suffix is the same run in the whole text. */
  lemma {:induction false} SpaceRunShift(s: string, p: nat, i: nat)
    requires p + i <= |s|
    ensures SpaceRunEnd(s, p + i) == p + SpaceRunEnd(s[p..], i)
    decreases |s| - p - i
  {
    if p + i < |s| {
      assert s[p..][i] == s[p + i];
      if IsSpace(s[p + i]) {
        SpaceRunShift(s, p, i + 1);
      }
    }
  }

  /** A match depends only on the text from its start on. */
  lemma MatchShift(s: string, p: nat, i: nat, d: Delimiter)
    requires p + i <= |s|
    ensures MatchAt(s, p + i, d).None? <==> MatchAt(s[p..], i, d).None?
    ensures MatchAt(s[p..], i, d).Some? ==> MatchAt(s, p + i, d) == Some(p + MatchAt(s[p..], i, d).value)
  {
    var q := s[p..];
    if p + i < |s| {
      assert q[i] == s[p + i];
      if IsSpace(q[i]) {
        SpaceRunShift(s, p, i);
        if d.Keyword? {
          KeywordShift(s, p, SpaceRunEnd(q, i), d.word);
        }
      }
    }
  }

  /** After the leading space run, the rest of a keyword match reads the same in a suffix. */
  lemma KeywordShift(s: string, p: nat, j: nat, word: string)
    requires p + j <= |s|
    ensures var q, k := s[p..], j + |word|;
      && (WordAt(s, p + j, word) <==> WordAt(q, j, word))
      && (k < |q| ==> s[p + k] == q[k] && (IsSpace(q[k]) ==> SpaceRunEnd(s, p + k) == p + SpaceRunEnd(q, k)))
  {
    var q, k := s[p..], j + |word|;
    WordAtShift(s, p, j, word);
    if k < |q| {
      assert s[p + k] == q[k];
      if IsSpace(q[k]) {
        SpaceRunShift(s, p, k);
      }
    }
  }

  /** A word appears in a suffix where it appears, shifted, in the whole text. */
  lemma WordAtShift(s: string, p: nat, j: nat, word: string)
    requires p + j <= |s|
    ensures WordAt(s, p + j, word) <==> WordAt(s[p..], j, word)
  {
    var q := s[p..];
    assert forall k :: 0 <= k < |q| ==> q[k] == s[p + k];
  }

  /** No match in the first `n` positions of a suffix: none in those positions of the whole text. */
  lemma NoMatchInSuffix(s: string, p: nat, n: nat, d: Delimiter)
    requires p + n <= |s|
    requires forall k :: 0 <= k < n ==> MatchAt(s[p..], k, d).None?
    ensures forall k :: p <= k < p + n ==> MatchAt(s, k, d).None?
  {
    forall k | p <= k < p + n
      ensures MatchAt(s, k, d).None?
    {
      MatchShift(s, p, k - p, d);
    }
  }

  /**
   * A single space, then a visible word other than `word` that ends the
   * text or is followed by a space: no match of `word` starts at the space.
   */
  lemma SpaceBeforeOtherWord(s: string, i: nat, v: string, word: string)
    requires IsPrintable(v) && IsPrintable(word) && IsLowerCase(word) && !EqualsIgnoreCase(v, word)
    requires i + 1 + |v| <= |s| && s[i] == ' ' && s[i + 1..i + 1 + |v|] == v
    requires i + 1 + |v| == |s| || s[i + 1 + |v|] == ' '
    ensures MatchAt(s, i, Keyword(word)).None?
  {
    var j := i + 1;
    var n := |v|;
    var m := |word|;
    assert s[j] == v[0];
    assert SpaceRunEnd(s, j) == j;
    assert SpaceRunEnd(s, i) == j;
    if n < m && j + m <= |s| {
      // the space after `v` meets a visible character of `word`
      assert s[j + n] == ' ' && !IsBlank(word[n]);
      assert LowerChar(s[j + n]) != word[n];
    } else if n < m {
      // `word` runs past the end of the text
    } else if n == m {
      var k :| 0 <= k < n && LowerChar(v[k]) != LowerChar(word[k]);
      assert s[j + k] == v[k];
      assert LowerChar(s[j + k]) != word[k];
    } else {
      // `word` ends inside `v`, before a visible character
      assert s[j + m] == v[m] && !IsBlank(v[m]);
    }
    assert !(WordAt(s, j, word) && j + m < |s| && IsSpace(s[j + m]));
  }

  /**
   * Text that starts with visible words joined by single spaces, none of
   * them `word`, followed by a space or nothing: no match of `word` starts
   * inside the joined words.
   */
  lemma {:induction false} NoKeywordInJoin(words: seq<string>, s: string, word: string)
    requires PhraseOf(words, word) && IsPrintable(word) && IsLowerCase(word)
    requires |Join(words)| <= |s| && s[..|Join(words)|] == Join(words)
    requires |s| == |Join(words)| || s[|Join(words)|] == ' '
    ensures forall k :: 0 <= k < |Join(words)| ==> MatchAt(s, k, Keyword(word)).None?
    decreases |words|
  {
    var w := words[0];
    FirstWordNoMatch(words, s, word);
    if |words| > 1 {
      JointNoMatch(words, s, word);
      RestOfJoin(words, s);
      NoKeywordInJoin(words[1..], s[|w| + 1..], word);
      NoMatchAcross(s, |w| + 1, |Join(words[1..])|, Keyword(word));
    } else {
      assert Join(words) == w;
    }
  }

  /** After the first word and its space, the text starts with the other words joined. */
  lemma RestOfJoin(words: seq<string>, s: string)
    requires |words| > 1
    requires |Join(words)| <= |s| && s[..|Join(words)|] == Join(words)
    requires |s| == |Join(words)| || s[|Join(words)|] == ' '
    ensures var rest := s[|words[0]| + 1..]; var tail := Join(words[1..]);
      && |Join(words)| == |words[0]| + 1 + |tail|
      && |tail| <= |rest| && rest[..|tail|] == tail
      && (|rest| == |tail| || rest[|tail|] == ' ')
  {
    var w := words[0];
    var tail := Join(words[1..]);
    var rest := s[|w| + 1..];
    JoinCons(words);
    assert Join(words)[|w| + 1..] == tail;
    assert rest[..|tail|] == Join(words)[|w| + 1..];
  }

  /**
   * No match before `p - 1`, none at `p - 1`, and none in the first `n`
   * positions of the text from `p`: none in the first `p + n` positions.
   */
  lemma NoMatchAcross(s: string, p: nat, n: nat, d: Delimiter)
    requires 0 < p && p + n <= |s|
    requires forall k :: 0 <= k < p - 1 ==> MatchAt(s, k, d).None?
    requires MatchAt(s, p - 1, d).None?
    requires forall k :: 0 <= k < n ==> MatchAt(s[p..], k, d).None?
    ensures forall k :: 0 <= k < p + n ==> MatchAt(s, k, d).None?
  {
    NoMatchInSuffix(s, p, n, d);
  }

  /** No match starts inside the first of the joined words. */
  lemma FirstWordNoMatch(words: seq<string>, s: string, word: string)
    requires |words| > 0 && IsPrintable(words[0])
    requires |Join(words)| <= |s| && s[..|Join(words)|] == Join(words)
    ensures forall k :: 0 <= k < |words[0]| ==> MatchAt(s, k, Keyword(word)).None?
  {
    JoinStart(words);
    assert forall k :: 0 <= k < |words[0]| ==> s[k] == words[0][k];
    NoMatchInWord(s, 0, |words[0]|, Keyword(word));
  }

  /** No match starts at the space after the first of the joined words. */
  lemma JointNoMatch(words: seq<string>, s: string, word: string)
    requires |words| > 1 && IsPrintable(word) && IsLowerCase(word)
    requires IsPrintable(words[1]) && !EqualsIgnoreCase(words[1], word)
    requires |Join(words)| <= |s| && s[..|Join(words)|] == Join(words)
    requires |s| == |Join(words)| || s[|Join(words)|] == ' '
    ensures MatchAt(s, |words[0]|, Keyword(word)).None?
  {
    var w := words[0];
    var v := words[1];
    var tail := Join(words[1..]);
    JoinCons(words);
    JoinStart(words[1..]);
    var n := |Join(words)|;
    assert s[|w|] == ' ';
    assert s[|w| + 1..n] == tail;
    assert s[|w| + 1..|w| + 1 + |v|] == tail[..|v|];
    if |words| > 2 {
      assert s[|w| + 1 + |v|] == tail[|v|];
    } else {
      assert |w| + 1 + |v| == n;
    }
    SpaceBeforeOtherWord(s, |w|, v, word);
  }

  /**
   * Visible words joined by single spaces, none of them `word`, on both
   * sides of `word` typed in any case: splitting on the keyword gives the
   * two sides.
   */
  lemma KeywordSplit(left: seq<string>, w: string, right: seq<string>, word: string)
    requires PhraseOf(left, word) && PhraseOf(right, word) && IsPrintable(word) && IsLowerCase(word) && EqualsIgnoreCase(w, word)
    ensures Split(Join(left) + " " + w + " " + Join(right), Keyword(word)) == [Join(left), Join(right)]
  {
    Spaced(Join(left), w, Join(right));
    KeywordSplitAt(Join(left) + " " + w + " " + Join(right), left, w, right, word);
  }

  /** `s` is `l`, a space, `w`, a space and `r`, told by where each part lies. */
  predicate Around(s: string, l: string, w: string, r: string) {
    var a := |l|;
    && a + |w| + 2 <= |s| && s[..a] == l && s[a] == ' '
    && s[a + 1..a + |w| + 1] == w && s[a + |w| + 1] == ' ' && s[a + |w| + 2..] == r
  }

  /** Dropping a prefix `v` of the left part keeps the layout. */
  lemma AroundAfter(s: string, v: string, l: string, w: string, r: string)
    requires Around(s, v + l, w, r)
    ensures Around(s[|v|..], l, w, r)
  {
    var a := |v| + |l|;
    assert s[|v|..][..|l|] == s[..a][|v|..] == (v + l)[|v|..] == l;
    assert s[|v|..][|l| + |w| + 2..] == s[a + |w| + 2..];
  }

  /** Where the parts of `l w r`, written with single spaces, lie. */
  lemma Spaced(l: string, w: string, r: string)
    ensures Around(l + " " + w + " " + r, l, w, r)
  {
  }

  /** Visible words, none of which is `word` in any case. */
  predicate PhraseOf(words: seq<string>, word: string) {
    |words| > 0 && forall i :: 0 <= i < |words| ==> IsPrintable(words[i]) && !EqualsIgnoreCase(words[i], word)
  }

  /** A visible word other than `word`, put in front of such words, keeps them such. */
  lemma PhraseCons(v: string, words: seq<string>, word: string)
    requires IsPrintable(v) && !EqualsIgnoreCase(v, word) && PhraseOf(words, word)
    ensures PhraseOf([v] + words, word)
  {
    forall i | 0 <= i < |[v] + words|
      ensures IsPrintable(([v] + words)[i]) && !EqualsIgnoreCase(([v] + words)[i], word)
    {
      if i > 0 {
        assert ([v] + words)[i] == words[i - 1];
      }
    }
  }

  /** A visible word other than `word`, put after such words, keeps them such. */
  lemma PhraseSnoc(words: seq<string>, v: string, word: string)
    requires PhraseOf(words, word) && IsPrintable(v) && !EqualsIgnoreCase(v, word)
    ensures PhraseOf(words + [v], word)
  {
    forall i | 0 <= i < |words + [v]|
      ensures IsPrintable((words + [v])[i]) && !EqualsIgnoreCase((words + [v])[i], word)
    {
      if i < |words| {
        assert (words + [v])[i] == words[i];
      }
    }
  }

  /** `KeywordSplit`, for text given by its parts' positions. */
  lemma KeywordSplitAt(s: string, left: seq<string>, w: string, right: seq<string>, word: string)
    requires PhraseOf(left, word) && PhraseOf(right, word) && IsPrintable(word) && IsLowerCase(word) && EqualsIgnoreCase(w, word)
    requires Around(s, Join(left), w, Join(right))
    ensures Split(s, Keyword(word)) == [Join(left), Join(right)]
  {
    var l, r := Join(left), Join(right);
    assert |l| > 0 && |r| > 0 && FirstMatch(s, Keyword(word), 0) == Some((|l|, |l| + |w| + 2)) && FirstMatch(r, Keyword(word), 0).None? by {
      KeywordOnlyAt(s, left, w, right, word);
    }
    SplitAround(s, l, w, r, Keyword(word));
  }

  /** In such a phrase the keyword between the sides is the only match, and both sides have text. */
  lemma KeywordOnlyAt(s: string, left: seq<string>, w: string, right: seq<string>, word: string)
    requires PhraseOf(left, word) && PhraseOf(right, word) && IsPrintable(word) && IsLowerCase(word) && EqualsIgnoreCase(w, word)
    requires Around(s, Join(left), w, Join(right))
    ensures |Join(left)| > 0 && |Join(right)| > 0
    ensures FirstMatch(s, Keyword(word), 0) == Some((|Join(left)|, |Join(left)| + |w| + 2))
    ensures FirstMatch(Join(right), Keyword(word), 0).None?
  {
    assert IsPrintable(left[0]) && IsPrintable(right[0]);
    KeywordFirstAt(s, left, w, right, word);
    NoKeyword(right, word);
  }

  /** `l w r` whose only match is the one around `w`: `split` gives `l` and `r`. */
  lemma SplitAround(s: string, l: string, w: string, r: string, d: Delimiter)
    requires Around(s, l, w, r) && |l| > 0 && |r| > 0
    requires FirstMatch(s, d, 0) == Some((|l|, |l| + |w| + 2)) && FirstMatch(r, d, 0).None?
    ensures Split(s, d) == [l, r]
  {
    SplitTwo(s, d, |l|, |l| + |w| + 2);
  }

  /** Visible words joined by single spaces, none of them `word`, hold no match of it. */
  lemma NoKeyword(words: seq<string>, word: string)
    requires PhraseOf(words, word) && IsPrintable(word) && IsLowerCase(word)
    ensures FirstMatch(Join(words), Keyword(word), 0).None?
  {
    NoKeywordInJoin(words, Join(words), word);
  }

  /** Exactly one match, with text on both sides: `split` gives the two sides. */
  lemma SplitTwo(s: string, d: Delimiter, a: nat, e: nat)
    requires FirstMatch(s, d, 0) == Some((a, e)) && FirstMatch(s[e..], d, 0).None?
    requires 0 < a && e < |s|
    ensures Split(s, d) == [s[..a], s[e..]]
  {
    assert Pieces(s[e..], d) == [s[e..]];
    assert Pieces(s, d) == [s[..a]] + Pieces(s[e..], d);
    SplitKeepsNonEmpty(s, d);
  }

  /** The first match in such a phrase is the keyword between the two sides. */
  lemma KeywordFirstAt(s: string, left: seq<string>, w: string, right: seq<string>, word: string)
    requires PhraseOf(left, word) && PhraseOf(right, word) && IsPrintable(word) && IsLowerCase(word) && EqualsIgnoreCase(w, word)
    requires Around(s, Join(left), w, Join(right))
    ensures FirstMatch(s, Keyword(word), 0) == Some((|Join(left)|, |Join(left)| + |w| + 2))
  {
    var a := |Join(left)|;
    assert forall k :: 0 <= k < a ==> MatchAt(s, k, Keyword(word)).None? by {
      NoKeywordInJoin(left, s, word);
    }
    assert !IsBlank(s[a + |w| + 2]) by {
      assert IsPrintable(right[0]);
      assert s[a + |w| + 2] == Join(right)[0];
    }
    KeywordAtGap(s, a, w, word);
  }

  /**
   * No match before the space at `a`, then `w` (which is `word` in any
   * case) between single spaces, then a visible character: the first match
   * is the one around `w`.
   */
  lemma KeywordAtGap(s: string, a: nat, w: string, word: string)
    requires IsPrintable(word) && IsLowerCase(word) && EqualsIgnoreCase(w, word)
    requires a + |w| + 2 < |s| && s[a] == ' ' && s[a + 1..a + |w| + 1] == w && s[a + |w| + 1] == ' '
    requires !IsBlank(s[a + |w| + 2])
    requires forall k :: 0 <= k < a ==> MatchAt(s, k, Keyword(word)).None?
    ensures FirstMatch(s, Keyword(word), 0) == Some((a, a + |w| + 2))
  {
    forall k | 0 <= k < |word|
      ensures LowerChar(s[a + 1 + k]) == word[k]
    {
      assert s[a + 1 + k] == w[k];
    }
    KeywordMatch(s, a, word);
    FirstMatchIs(s, Keyword(word), 0, a);
  }

  /**
   * Splitting on `\s+` text that neither starts nor ends with white space
   * keeps every token, and there is at least one.
   */
  lemma SpaceSplit(s: string)
    requires |s| > 0 && !IsSpace(s[0]) && !IsSpace(s[|s| - 1])
    ensures Split(s, Spaces) == Pieces(s, Spaces)
    ensures forall i :: 0 <= i < |Split(s, Spaces)| ==> |Split(s, Spaces)[i]| > 0 && NoSpace(Split(s, Spaces)[i])
  {
    SpaceTokens(s);
    SplitKeepsNonEmpty(s, Spaces);
  }

  /** The first piece of a split that found a match is the text before it. */
  lemma FirstPart(s: string, d: Delimiter)
    requires FirstMatch(s, d, 0).Some? && |Split(s, d)| > 0
    ensures Split(s, d)[0] == s[..FirstMatch(s, d, 0).value.0]
  {
    var ps := Pieces(s, d);
    assert ps[0] == s[..FirstMatch(s, d, 0).value.0];
    assert Split(s, d) == ps[..|Split(s, d)|];
  }

  /**
   * A space, the word in any case, a space and a visible character: a match
   * that ends before that character.
   */
  lemma KeywordMatch(s: string, i: nat, word: string)
    requires i + |word| + 2 < |s| && |word| > 0
    requires s[i] == ' ' && s[i + |word| + 1] == ' ' && !IsBlank(s[i + |word| + 2])
    requires WordAt(s, i + 1, word) && !IsSpace(word[0])
    ensures MatchAt(s, i, Keyword(word)) == Some(i + |word| + 2)
  {
    assert LowerChar(s[i + 1]) == word[0];
    assert SpaceRunEnd(s, i + 1) == i + 1;
    assert SpaceRunEnd(s, i) == i + 1;
    assert SpaceRunEnd(s, i + |word| + 2) == i + |word| + 2;
    assert SpaceRunEnd(s, i + |word| + 1) == i + |word| + 2;
  }

  /** Positions holding visible characters start no match. */
  lemma NoMatchInWord(s: string, a: nat, b: nat, d: Delimiter)
    requires a <= b <= |s|
    requires forall k :: a <= k < b ==> !IsBlank(s[k])
    ensures forall k :: a <= k < b ==> MatchAt(s, k, d).None?
  {
  }

  /** When no piece is empty, `split` keeps them all. */
  lemma SplitKeepsNonEmpty(s: string, d: Delimiter)
    requires forall i :: 0 <= i < |Pieces(s, d)| ==> |Pieces(s, d)[i]| > 0
    ensures Split(s, d) == Pieces(s, d)
  {
    var ps := Pieces(s, d);
    if FirstMatch(s, d, 0).None? {
      assert ps == [s];
    }
  }
}
