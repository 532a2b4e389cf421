/**
 * `normalizeName` of server/storage.ts: a player name is trimmed and every
 * run of white space inside it is replaced by one space
 * (`String(name).trim().replace(/\s+/g, " ")`).
 */
module NameNormalizer {

  /** The characters that JavaScript's `trim` and the regular-expression
      class `\s` both treat as white space: the ECMAScript WhiteSpace and
      LineTerminator code points. */
  predicate IsWhitespace(c: char) {
    var n := c as int;
    n == 0x09 || n == 0x0A || n == 0x0B || n == 0x0C || n == 0x0D || n == 0x20
    || n == 0xA0 || n == 0x1680 || (0x2000 <= n <= 0x200A)
    || n == 0x2028 || n == 0x2029 || n == 0x202F || n == 0x205F
    || n == 0x3000 || n == 0xFEFF
  }

  predicate AllWhitespace(s: string) {
    forall i :: 0 <= i < |s| ==> IsWhitespace(s[i])
  }

  predicate NoEdgeWhitespace(s: string) {
    s == [] || (!IsWhitespace(s[0]) && !IsWhitespace(s[|s| - 1]))
  }

  /** No two neighbouring characters are both white space. The neighbour is
      bound as `j == i + 1` so that both indices are plain variables the
      quantifier can trigger on, without the matching loop `s[i + 1]` makes. */
  ghost predicate NoAdjacentWhitespace(s: string) {
    forall i, j :: 0 <= i < j < |s| && j == i + 1 ==> !(IsWhitespace(s[i]) && IsWhitespace(s[j]))
  }

  /** The only white space left is the plain space. */
  predicate OnlySpaces(s: string) {
    forall i :: 0 <= i < |s| && IsWhitespace(s[i]) ==> s[i] == ' '
  }

  /** The shape every stored queue name has. */
  ghost predicate IsNormalized(s: string) {
    NoEdgeWhitespace(s) && NoAdjacentWhitespace(s) && OnlySpaces(s)
  }

  /** The characters of `s` that are not white space, in order. */
  function NonWhitespace(s: string): string {
    if s == [] then []
    else if IsWhitespace(s[0]) then NonWhitespace(s[1..])
    else [s[0]] + NonWhitespace(s[1..])
  }

  /** Drops the white space at the start of `s`. */
  function TrimStart(s: string): (r: string)
    ensures |r| <= |s|
    ensures r == [] || !IsWhitespace(r[0])
    ensures forall i :: 0 <= i < |s| - |r| ==> IsWhitespace(s[i])
  {
    if s != [] && IsWhitespace(s[0]) then TrimStart(s[1..]) else s
  }

  /** Drops the white space at the end of `s`. */
  function TrimEnd(s: string): (r: string)
    ensures |r| <= |s|
    ensures r == [] || !IsWhitespace(r[|r| - 1])
    ensures forall i :: |r| <= i < |s| ==> IsWhitespace(s[i])
  {
    if s != [] && IsWhitespace(s[|s| - 1]) then TrimEnd(s[..|s| - 1]) else s
  }

  /** What TrimStart keeps is the end of `s`. */
  lemma {:induction false} TrimStartIsSuffix(s: string)
    ensures TrimStart(s) == s[|s| - |TrimStart(s)|..]
  {
    if s != [] && IsWhitespace(s[0]) {
      TrimStartIsSuffix(s[1..]);
      assert s[1..][|s| - 1 - |TrimStart(s)|..] == s[|s| - |TrimStart(s)|..];
    }
  }

  /** What TrimEnd keeps is the start of `s`. */
  lemma {:induction false} TrimEndIsPrefix(s: string)
    ensures TrimEnd(s) == s[..|TrimEnd(s)|]
  {
    if s != [] && IsWhitespace(s[|s| - 1]) {
      TrimEndIsPrefix(s[..|s| - 1]);
      assert s[..|s| - 1][..|TrimEnd(s)|] == s[..|TrimEnd(s)|];
    }
  }

  /** `String.prototype.trim`. */
  function Trim(s: string): (r: string)
    ensures NoEdgeWhitespace(r)
    ensures |r| <= |s|
  {
    TrimEndIsPrefix(TrimStart(s));
    TrimEnd(TrimStart(s))
  }

  /** `replace(/\s+/g, " ")`: each maximal run of white space becomes one space. */
  function CollapseWhitespace(s: string): (r: string)
    ensures |r| <= |s|
    ensures r == [] <==> s == []
    ensures r != [] ==> (IsWhitespace(r[0]) <==> IsWhitespace(s[0]))
    ensures r != [] ==> (IsWhitespace(r[|r| - 1]) <==> IsWhitespace(s[|s| - 1]))
    ensures NoAdjacentWhitespace(r) && OnlySpaces(r)
    decreases |s|
  {
    if s == [] then []
    else if IsWhitespace(s[0]) then
      var rest := TrimStart(s);
      TrimStartIsSuffix(s);
      assert rest != s;
      [' '] + CollapseWhitespace(rest)
    else [s[0]] + CollapseWhitespace(s[1..])
  }

  /** `normalizeName`. The result is empty exactly when the input is all white
      space (NormalizeEmptyIff); callers treat an empty result as a missing name. */
  function NormalizeName(name: string): (r: string)
    ensures IsNormalized(r)
    ensures |r| <= |name|
  {
    CollapseWhitespace(Trim(name))
  }

  lemma {:induction false} NonWhitespaceOfWhitespace(s: string)
    requires AllWhitespace(s)
    ensures NonWhitespace(s) == []
  {
    if s != [] { NonWhitespaceOfWhitespace(s[1..]); }
  }

  lemma {:induction false} NonWhitespaceAppend(a: string, b: string)
    ensures NonWhitespace(a + b) == NonWhitespace(a) + NonWhitespace(b)
  {
    if a == [] {
      assert a + b == b;
    } else {
      assert (a + b)[1..] == a[1..] + b;
      NonWhitespaceAppend(a[1..], b);
    }
  }

  lemma TrimStartKeepsContent(s: string)
    ensures NonWhitespace(TrimStart(s)) == NonWhitespace(s)
  {
    var t := TrimStart(s);
    var front := s[..|s| - |t|];
    assert s == front + t by {
      TrimStartIsSuffix(s);
    }
    assert AllWhitespace(front) by {
      forall i | 0 <= i < |front| ensures IsWhitespace(front[i]) {
        assert front[i] == s[i];
      }
    }
    NonWhitespaceOfWhitespace(front);
    NonWhitespaceAppend(front, t);
  }

  lemma TrimEndKeepsContent(s: string)
    ensures NonWhitespace(TrimEnd(s)) == NonWhitespace(s)
  {
    var u := TrimEnd(s);
    var back := s[|u|..];
    assert s == u + back by {
      TrimEndIsPrefix(s);
    }
    assert AllWhitespace(back) by {
      forall i | 0 <= i < |back| ensures IsWhitespace(back[i]) {
        assert back[i] == s[|u| + i];
      }
    }
    NonWhitespaceOfWhitespace(back);
    NonWhitespaceAppend(u, back);
  }

  /** Trimming removes white space only. */
  lemma TrimKeepsContent(s: string)
    ensures NonWhitespace(Trim(s)) == NonWhitespace(s)
  {
    TrimStartKeepsContent(s);
    TrimEndKeepsContent(TrimStart(s));
  }

  /** Collapsing removes white space only. */
  lemma {:induction false} CollapseKeepsContent(s: string)
    ensures NonWhitespace(CollapseWhitespace(s)) == NonWhitespace(s)
    decreases |s|
  {
    if s == [] {
    } else if IsWhitespace(s[0]) {
      var rest := TrimStart(s);
      TrimStartIsSuffix(s);
      var front := s[..|s| - |rest|];
      assert s == front + rest;
      NonWhitespaceOfWhitespace(front);
      NonWhitespaceAppend(front, rest);
      CollapseKeepsContent(rest);
      NonWhitespaceAppend([' '], CollapseWhitespace(rest));
    } else {
      CollapseKeepsContent(s[1..]);
      NonWhitespaceAppend([s[0]], CollapseWhitespace(s[1..]));
    }
  }

  /** Normalising never drops, adds or reorders a visible character. */
  lemma NormalizeKeepsContent(name: string)
    ensures NonWhitespace(NormalizeName(name)) == NonWhitespace(name)
  {
    TrimKeepsContent(name);
    CollapseKeepsContent(Trim(name));
  }

  /** A string with a visible character has visible content. */
  lemma {:induction false} NonWhitespaceOfVisible(s: string, i: int)
    requires 0 <= i < |s| && !IsWhitespace(s[i])
    ensures NonWhitespace(s) != []
  {
    if i > 0 && IsWhitespace(s[0]) {
      NonWhitespaceOfVisible(s[1..], i - 1);
    }
  }

  /** A name that normalises to "" is one made only of white space, and
      conversely. */
  lemma NormalizeEmptyIff(name: string)
    ensures NormalizeName(name) == [] <==> AllWhitespace(name)
  {
    var r := NormalizeName(name);
    NormalizeKeepsContent(name);
    if AllWhitespace(name) {
      NonWhitespaceOfWhitespace(name);
      if r != [] {
        NonWhitespaceOfVisible(r, 0);
      }
    } else {
      var i :| 0 <= i < |name| && !IsWhitespace(name[i]);
      NonWhitespaceOfVisible(name, i);
    }
  }

  lemma CollapsedTail(s: string)
    requires s != [] && NoAdjacentWhitespace(s) && OnlySpaces(s)
    ensures NoAdjacentWhitespace(s[1..]) && OnlySpaces(s[1..])
  {
    var tail := s[1..];
    forall i, j | 0 <= i < j < |tail| && j == i + 1
      ensures !(IsWhitespace(tail[i]) && IsWhitespace(tail[j]))
    {
      assert tail[i] == s[i + 1] && tail[j] == s[j + 1];
    }
  }

  /** A single space before a visible character or the end is kept as it is. */
  lemma CollapseSingleSpace(tail: string)
    requires tail == [] || !IsWhitespace(tail[0])
    ensures CollapseWhitespace([' '] + tail) == [' '] + CollapseWhitespace(tail)
  {
    var s := [' '] + tail;
    assert s[1..] == tail;
    assert TrimStart(tail) == tail;
  }

  lemma {:induction false} CollapseFixesCollapsed(s: string)
    requires NoAdjacentWhitespace(s) && OnlySpaces(s)
    ensures CollapseWhitespace(s) == s
    decreases |s|
  {
    if s != [] {
      var tail := s[1..];
      CollapsedTail(s);
      CollapseFixesCollapsed(tail);
      assert s == [s[0]] + tail;
      if IsWhitespace(s[0]) {
        assert tail == [] || !IsWhitespace(s[1]);
        CollapseSingleSpace(tail);
      } else {
        CollapseVisible(s[0], tail);
      }
    }
  }

  /** A normalised name is its own normal form. */
  lemma NormalizeFixesNormalized(s: string)
    requires IsNormalized(s)
    ensures NormalizeName(s) == s
  {
    assert TrimStart(s) == s;
    assert TrimEnd(s) == s;
    CollapseFixesCollapsed(s);
  }

  /** Normalising twice is normalising once. */
  lemma NormalizeIdempotent(name: string)
    ensures NormalizeName(NormalizeName(name)) == NormalizeName(name)
  {
    NormalizeFixesNormalized(NormalizeName(name));
  }

  lemma {:induction false} TrimStartOfPadded(w: string, t: string)
    requires AllWhitespace(w) && (t == [] || !IsWhitespace(t[0]))
    ensures TrimStart(w + t) == t
  {
    if w == [] {
      assert w + t == t;
    } else {
      assert (w + t)[1..] == w[1..] + t;
      TrimStartOfPadded(w[1..], t);
    }
  }

  lemma {:induction false} TrimEndOfPadded(t: string, w: string)
    requires AllWhitespace(w) && (t == [] || !IsWhitespace(t[|t| - 1]))
    ensures TrimEnd(t + w) == t
  {
    if w == [] {
      assert t + w == t;
    } else {
      assert (t + w)[..|t + w| - 1] == t + w[..|w| - 1];
      TrimEndOfPadded(t, w[..|w| - 1]);
    }
  }

  /** A white-space run before a visible character becomes one space. */
  lemma CollapseGap(gap: string, rest: string)
    requires gap != [] && AllWhitespace(gap) && (rest == [] || !IsWhitespace(rest[0]))
    ensures CollapseWhitespace(gap + rest) == [' '] + CollapseWhitespace(rest)
  {
    assert (gap + rest)[0] == gap[0];
    TrimStartOfPadded(gap, rest);
  }

  /** A visible character is kept as it is. */
  lemma CollapseVisible(c: char, rest: string)
    requires !IsWhitespace(c)
    ensures CollapseWhitespace([c] + rest) == [c] + CollapseWhitespace(rest)
  {
    assert ([c] + rest)[1..] == rest;
  }

  predicate NoWhitespace(s: string) {
    forall i :: 0 <= i < |s| ==> !IsWhitespace(s[i])
  }

  /** Collapsing starts by copying a visible first character. */
  lemma CollapseWordHead(word: string, rest: string)
    requires word != [] && NoWhitespace(word)
    ensures CollapseWhitespace(word + rest) == [word[0]] + CollapseWhitespace(word[1..] + rest)
  {
    assert word + rest == [word[0]] + (word[1..] + rest);
    CollapseVisible(word[0], word[1..] + rest);
  }

  /** ConcatAssoc and ConsTail: sequence identities stated on their own, so
      that the proofs using them do not unfold the collapsing function while
      they regroup. */
  lemma ConcatAssoc(a: string, b: string, c: string)
    ensures a + b + c == a + (b + c)
  {
  }

  lemma ConsTail(word: string, x: string)
    requires word != []
    ensures [word[0]] + (word[1..] + x) == word + x
  {
  }

  /** A word without white space passes through collapsing unchanged. */
  lemma {:induction false} CollapseKeepsWord(word: string, rest: string)
    requires NoWhitespace(word)
    ensures CollapseWhitespace(word + rest) == word + CollapseWhitespace(rest)
    decreases |word|
  {
    if word == [] {
      assert word + rest == rest;
    } else {
      CollapseKeepsWord(word[1..], rest);
      CollapseWordHead(word, rest);
      ConsTail(word, CollapseWhitespace(rest));
    }
  }

  lemma TrimPadded(lead: string, middle: string, trail: string)
    requires AllWhitespace(lead) && AllWhitespace(trail)
    requires middle != [] && !IsWhitespace(middle[0]) && !IsWhitespace(middle[|middle| - 1])
    ensures Trim(lead + middle + trail) == middle
  {
    assert lead + middle + trail == lead + (middle + trail);
    TrimStartOfPadded(lead, middle + trail);
    TrimEndOfPadded(middle, trail);
  }

  lemma CollapseGapThenWord(gap: string, word: string)
    requires gap != [] && AllWhitespace(gap) && word != [] && NoWhitespace(word)
    ensures CollapseWhitespace(gap + word) == [' '] + word
  {
    CollapseGap(gap, word);
    CollapseKeepsWord(word, []);
    assert word + [] == word;
  }

  lemma CollapseTwoWords(first: string, gap: string, second: string)
    requires gap != [] && AllWhitespace(gap)
    requires first != [] && NoWhitespace(first) && second != [] && NoWhitespace(second)
    ensures CollapseWhitespace(first + gap + second) == first + [' '] + second
  {
    ConcatAssoc(first, gap, second);
    CollapseKeepsWord(first, gap + second);
    CollapseGapThenWord(gap, second);
    ConcatAssoc(first, [' '], second);
  }

  /** Two words with white space around and between them normalise to the
      two words joined by one space: "  Sam   Lee  " becomes "Sam Lee". */
  lemma NormalizeTwoWords(lead: string, first: string, gap: string, second: string, trail: string)
    requires AllWhitespace(lead) && AllWhitespace(trail) && gap != [] && AllWhitespace(gap)
    requires first != [] && NoWhitespace(first) && second != [] && NoWhitespace(second)
    ensures NormalizeName(lead + first + gap + second + trail) == first + [' '] + second
  {
    var middle := first + gap + second;
    assert lead + first + gap + second + trail == lead + middle + trail;
    TrimPadded(lead, middle, trail);
    CollapseTwoWords(first, gap, second);
  }
}
