/** Characters and strings the way the extractor's Python code sees them.
    Whitespace is the full set of code points for which `str.isspace()` holds;
    it is also what the regular-expression class `\s`, `str.strip()` and
    `str.split()` use. Letters, digits, the word class `\w` and lower-casing
    are modelled on ASCII. */
module Text {

  /** `c.isspace()`: the code points Python classes as whitespace. */
  predicate IsSpace(c: char) {
    ('\t' <= c <= '\r') || ('\U{1C}' <= c <= '\U{1F}') || c == ' '
    || c == '\U{85}' || c == '\U{A0}' || c == '\U{1680}'
    || ('\U{2000}' <= c <= '\U{200A}') || c == '\U{2028}' || c == '\U{2029}'
    || c == '\U{202F}' || c == '\U{205F}' || c == '\U{3000}'
  }

  predicate IsNonNewline(c: char) { c != '\n' }

  predicate IsNonSpace(c: char) { !IsSpace(c) }

  predicate IsDigit(c: char) { '0' <= c <= '9' }
  predicate IsUpper(c: char) { 'A' <= c <= 'Z' }
  predicate IsLower(c: char) { 'a' <= c <= 'z' }
  predicate IsLetter(c: char) { IsUpper(c) || IsLower(c) }

  /** The regular-expression class `[:\s]`. */
  predicate IsColonOrSpace(c: char) { c == ':' || IsSpace(c) }

  /** The sentence terminators `.`, `!` and `?`. */
  predicate IsTerminator(c: char) { c == '.' || c == '!' || c == '?' }

  /** The regular-expression class `\w`. */
  predicate IsWordChar(c: char) { IsLetter(c) || IsDigit(c) || c == '_' }

  /** `c.lower()` on ASCII: a capital becomes the small letter at the same
      place in the alphabet, every other character stays as it is. */
  function ToLower(c: char): (d: char)
    ensures !IsUpper(d)
    ensures IsLetter(d) <==> IsLetter(c)
    ensures IsDigit(d) <==> IsDigit(c)
    ensures IsUpper(c) ==> IsLower(d) && d as int - 'a' as int == c as int - 'A' as int
    ensures !IsUpper(c) ==> d == c
  {
    if IsUpper(c) then (c as int + 32) as char else c
  }

  /** Two characters look the same to `re.IGNORECASE` exactly when they are
      equal or are the capital and the small form of one letter. */
  lemma ToLowerSame(a: char, b: char)
    ensures ToLower(a) == ToLower(b) <==>
              a == b
              || (IsUpper(a) && IsLower(b) && b as int - 'a' as int == a as int - 'A' as int)
              || (IsLower(a) && IsUpper(b) && a as int - 'a' as int == b as int - 'A' as int)
  {
  }

  /** `s.lower()`. */
  function Lower(s: string): (r: string)
    ensures |r| == |s|
    ensures forall i :: 0 <= i < |s| ==> r[i] == ToLower(s[i])
    ensures forall i :: 0 <= i < |s| ==> !IsUpper(r[i]) && (!IsUpper(s[i]) ==> r[i] == s[i])
  {
    seq(|s|, i requires 0 <= i < |s| => ToLower(s[i]))
  }

  /** Equality as `re.IGNORECASE` sees it for ASCII letters. */
  predicate SameIgnoringCase(a: string, b: string) {
    |a| == |b| && forall i :: 0 <= i < |a| ==> ToLower(a[i]) == ToLower(b[i])
  }

  /** `word` occurs, ignoring case, in `t` at position `i`. */
  predicate WordAt(t: string, i: nat, word: string) {
    i + |word| <= |t| && SameIgnoringCase(t[i..i + |word|], word)
  }

  predicate IsInfix(a: string, b: string) {
    exists i, j :: 0 <= i <= j <= |b| && b[i..j] == a
  }

  lemma InfixOfInfix(a: string, b: string, c: string)
    requires IsInfix(a, b) && IsInfix(b, c)
    ensures IsInfix(a, c)
  {
    var i, j :| 0 <= i <= j <= |b| && b[i..j] == a;
    var k, l :| 0 <= k <= l <= |c| && c[k..l] == b;
    assert |c[k + i..k + j]| == |a|;
    forall m | 0 <= m < |a| ensures c[k + i..k + j][m] == a[m] {
      assert a[m] == b[i + m];
    }
    assert c[k + i..k + j] == a;
  }

  lemma InfixChars(a: string, b: string)
    requires IsInfix(a, b)
    ensures forall c :: c in a ==> c in b
  {
    var i, j :| 0 <= i <= j <= |b| && b[i..j] == a;
    forall c | c in a ensures c in b {
      var m :| 0 <= m < |a| && a[m] == c;
      assert b[i + m] == c;
    }
  }

  lemma SliceIsInfix(s: string, i: nat, j: nat)
    requires i <= j <= |s|
    ensures IsInfix(s[i..j], s)
  {
  }

  /** The end of the longest run of characters satisfying `p` that starts at `i`
      (a greedy `p*`). */
  function Span(t: string, i: nat, p: char -> bool): (j: nat)
    requires i <= |t|
    ensures i <= j <= |t|
    ensures forall k :: i <= k < j ==> p(t[k])
    ensures j < |t| ==> !p(t[j])
    decreases |t| - i
  {
    if i == |t| || !p(t[i]) then i else Span(t, i + 1, p)
  }

  /** The greedy `\s*` from `i`. */
  function SkipSpace(t: string, i: nat): (j: nat)
    requires i <= |t|
    ensures i <= j <= |t|
    ensures forall k :: i <= k < j ==> IsSpace(t[k])
    ensures j < |t| ==> !IsSpace(t[j])
  {
    Span(t, i, IsSpace)
  }

  /** The start of the trailing whitespace of `s[lo..]`. */
  function TrimEnd(s: string, lo: nat): (j: nat)
    requires lo <= |s|
    ensures lo <= j <= |s|
    ensures forall k :: j <= k < |s| ==> IsSpace(s[k])
    ensures j > lo ==> !IsSpace(s[j - 1])
  {
    if |s| == lo || !IsSpace(s[|s| - 1]) then |s|
    else TrimEnd(s[..|s| - 1], lo)
  }

  /** `s.strip()`: `s` without its leading and trailing whitespace. */
  function Strip(s: string): (r: string)
    ensures |r| <= |s|
    ensures r != [] ==> !IsSpace(r[0]) && !IsSpace(r[|r| - 1])
    ensures IsInfix(r, s)
    ensures forall c :: c in r ==> c in s
    ensures (forall c :: c in s ==> IsSpace(c)) ==> r == []
  {
    var i := SkipSpace(s, 0);
    var j := TrimEnd(s, i);
    assert IsInfix(s[i..j], s) by { SliceIsInfix(s, i, j); }
    s[i..j]
  }

  /** What `strip` removes is whitespace, and only at the two ends. */
  lemma StripEnds(s: string)
    ensures exists i, j :: 0 <= i <= j <= |s| && Strip(s) == s[i..j]
              && (forall k :: 0 <= k < i ==> IsSpace(s[k])) && (forall k :: j <= k < |s| ==> IsSpace(s[k]))
  {
    var i := SkipSpace(s, 0);
    var j := TrimEnd(s, i);
    assert Strip(s) == s[i..j];
  }

  /** `[x.strip() for x in xs]`. */
  function StripAll(xs: seq<string>): (r: seq<string>)
    ensures |r| == |xs| && forall i :: 0 <= i < |xs| ==> r[i] == Strip(xs[i])
  {
    seq(|xs|, i requires 0 <= i < |xs| => Strip(xs[i]))
  }

  /** `s.split()`: the maximal runs of non-whitespace characters, in order. */
  function Words(s: string): (r: seq<string>)
    ensures forall w :: w in r ==> w != [] && (forall c :: c in w ==> !IsSpace(c)) && IsInfix(w, s)
    decreases |s|
  {
    var i := SkipSpace(s, 0);
    if i == |s| then []
    else
      var j := Span(s, i, IsNonSpace);
      var rest := Words(s[j..]);
      assert IsInfix(s[i..j], s) by { SliceIsInfix(s, i, j); }
      forall w | w in rest ensures IsInfix(w, s) {
        SliceIsInfix(s, j, |s|);
        InfixOfInfix(w, s[j..], s);
      }
      [s[i..j]] + rest
  }

  /** One step of `Words`: the first word, then the words of what follows it. */
  lemma WordsStep(s: string)
    requires SkipSpace(s, 0) < |s|
    ensures Words(s) == [s[SkipSpace(s, 0)..Span(s, SkipSpace(s, 0), IsNonSpace)]]
                        + Words(s[Span(s, SkipSpace(s, 0), IsNonSpace)..])
  {
  }

  /** A word of `s.split()` starts at `k`: a non-whitespace character at the
      start of `s` or right after whitespace. */
  predicate WordStartAt(s: string, k: nat)
    requires k < |s|
  {
    !IsSpace(s[k]) && (k == 0 || IsSpace(s[k - 1]))
  }

  /** The number of word starts at the positions `lo` to `hi - 1`. */
  function WordStarts(s: string, lo: nat, hi: nat): nat
    requires lo <= hi <= |s|
    decreases hi - lo
  {
    if lo == hi then 0 else (if WordStartAt(s, lo) then 1 else 0) + WordStarts(s, lo + 1, hi)
  }

  /** `len(s.split())`, the word count, is the number of word starts in `s`. */
  lemma {:induction false} WordCount(s: string)
    ensures |Words(s)| == WordStarts(s, 0, |s|)
    decreases |s|
  {
    var i := SkipSpace(s, 0);
    NoStartsBefore(s, 0, i, |s|);
    if i < |s| {
      var j := Span(s, i, IsNonSpace);
      WordsStep(s);
      WordCount(s[j..]);
      NoStartsBefore(s, i + 1, j, |s|);
      StartsShift(s, j, j);
    }
  }

  /** Positions that start no word can be skipped when counting. */
  lemma {:induction false} NoStartsBefore(s: string, lo: nat, mid: nat, hi: nat)
    requires lo <= mid <= hi <= |s|
    requires forall k :: lo <= k < mid ==> !WordStartAt(s, k)
    ensures WordStarts(s, lo, hi) == WordStarts(s, mid, hi)
    decreases mid - lo
  {
    if lo < mid {
      NoStartsBefore(s, lo + 1, mid, hi);
    }
  }

  /** After a word (at the end of `s` or at whitespace), the starts of the
      rest of `s` are those of the suffix. */
  lemma {:induction false} StartsShift(s: string, j: nat, lo: nat)
    requires j <= lo <= |s| && (j < |s| ==> IsSpace(s[j]))
    ensures WordStarts(s, lo, |s|) == WordStarts(s[j..], lo - j, |s| - j)
    decreases |s| - lo
  {
    if lo < |s| {
      StartsShift(s, j, lo + 1);
      assert s[j..][lo - j] == s[lo];
      if lo > j {
        assert s[j..][lo - j - 1] == s[lo - 1];
      }
    }
  }

  /** `s.split('\n')`: the pieces between newlines, empty ones included. */
  function Lines(s: string): (r: seq<string>)
    ensures |r| >= 1
    ensures forall l :: l in r ==> '\n' !in l && IsInfix(l, s)
    decreases |s|
  {
    var j := Span(s, 0, IsNonNewline);
    if j == |s| then
      assert IsInfix(s, s) by { SliceIsInfix(s, 0, |s|); }
      [s]
    else
      var rest := Lines(s[j + 1..]);
      assert IsInfix(s[..j], s) by { SliceIsInfix(s, 0, j); }
      forall l | l in rest ensures IsInfix(l, s) {
        SliceIsInfix(s, j + 1, |s|);
        InfixOfInfix(l, s[j + 1..], s);
      }
      [s[..j]] + rest
  }

  /** `sep.join(parts)`. */
  function Join(sep: string, parts: seq<string>): string {
    if parts == [] then []
    else if |parts| == 1 then parts[0]
    else parts[0] + sep + Join(sep, parts[1..])
  }

  /** Every part stands in the joined string. */
  lemma {:induction false} JoinParts(sep: string, parts: seq<string>)
    ensures forall k :: 0 <= k < |parts| ==> IsInfix(parts[k], Join(sep, parts))
  {
    if |parts| == 1 {
      assert parts[0][0..|parts[0]|] == parts[0];
      SliceIsInfix(parts[0], 0, |parts[0]|);
    } else if |parts| > 1 {
      var rest := Join(sep, parts[1..]);
      var j := parts[0] + sep + rest;
      assert Join(sep, parts) == j;
      JoinParts(sep, parts[1..]);
      assert j[..|parts[0]|] == parts[0];
      SliceIsInfix(j, 0, |parts[0]|);
      assert j[|parts[0]| + |sep|..] == rest;
      SliceIsInfix(j, |parts[0]| + |sep|, |j|);
      forall k | 1 <= k < |parts| ensures IsInfix(parts[k], j) {
        assert parts[k] == parts[1..][k - 1];
        InfixOfInfix(parts[k], rest, j);
      }
    }
  }

  /** Joining the lines back with newlines gives the text. */
  lemma {:induction false} LinesJoin(s: string)
    ensures Join("\n", Lines(s)) == s
    decreases |s|
  {
    var j := Span(s, 0, IsNonNewline);
    if j < |s| {
      var rest := Lines(s[j + 1..]);
      assert Lines(s) == [s[..j]] + rest;
      LinesJoin(s[j + 1..]);
      assert Join("\n", Lines(s)) == s[..j] + "\n" + Join("\n", rest);
      assert s == s[..j] + "\n" + s[j + 1..];
    }
  }

  /** Removing every whitespace character. */
  function NonSpace(s: string): string {
    if s == [] then [] else (if IsSpace(s[0]) then [] else [s[0]]) + NonSpace(s[1..])
  }

  function Concat(parts: seq<string>): string {
    if parts == [] then [] else parts[0] + Concat(parts[1..])
  }

  lemma {:induction false} NonSpaceAppend(s: string, t: string)
    ensures NonSpace(s + t) == NonSpace(s) + NonSpace(t)
  {
    if s == [] {
      assert s + t == t;
    } else {
      assert (s + t)[1..] == s[1..] + t;
      NonSpaceAppend(s[1..], t);
    }
  }

  lemma {:induction false} NonSpaceAllSpace(s: string)
    requires forall k :: 0 <= k < |s| ==> IsSpace(s[k])
    ensures NonSpace(s) == []
  {
    if s != [] {
      assert forall k :: 0 <= k < |s[1..]| ==> s[1..][k] == s[k + 1];
      NonSpaceAllSpace(s[1..]);
    }
  }

  lemma {:induction false} NonSpaceNoSpace(s: string)
    requires forall k :: 0 <= k < |s| ==> !IsSpace(s[k])
    ensures NonSpace(s) == s
  {
    if s != [] {
      assert forall k :: 0 <= k < |s[1..]| ==> s[1..][k] == s[k + 1];
      NonSpaceNoSpace(s[1..]);
      assert s == [s[0]] + s[1..];
    }
  }

  /** The words of `s` are exactly its non-whitespace characters, cut at whitespace. */
  lemma {:induction false} WordsCoverText(s: string)
    ensures Concat(Words(s)) == NonSpace(s)
    decreases |s|
  {
    var i := SkipSpace(s, 0);
    if i == |s| {
      NonSpaceAllSpace(s);
    } else {
      var j := Span(s, i, IsNonSpace);
      WordsStep(s);
      WordsCoverText(s[j..]);
      NonSpaceSplit(s, i, j);
    }
  }

  /** Cutting `s` after leading whitespace `s[..i]` and a word `s[i..j]`. */
  lemma {:induction false} NonSpaceSplit(s: string, i: nat, j: nat)
    requires i <= j <= |s|
    requires forall k :: 0 <= k < i ==> IsSpace(s[k])
    requires forall k :: i <= k < j ==> !IsSpace(s[k])
    ensures NonSpace(s) == s[i..j] + NonSpace(s[j..])
  {
    var a, b, c := s[..i], s[i..j], s[j..];
    assert s == (a + b) + c;
    NonSpaceAppend3(a, b, c);
    SpacePrefix(s, i);
    WordSlice(s, i, j);
  }

  lemma NonSpaceAppend3(a: string, b: string, c: string)
    ensures NonSpace((a + b) + c) == NonSpace(a) + NonSpace(b) + NonSpace(c)
  {
    NonSpaceAppend(a + b, c);
    NonSpaceAppend(a, b);
  }

  lemma SpacePrefix(s: string, i: nat)
    requires i <= |s| && forall k :: 0 <= k < i ==> IsSpace(s[k])
    ensures NonSpace(s[..i]) == []
  {
    forall k | 0 <= k < i ensures IsSpace(s[..i][k]) {
      assert s[..i][k] == s[k];
    }
    NonSpaceAllSpace(s[..i]);
  }

  lemma WordSlice(s: string, i: nat, j: nat)
    requires i <= j <= |s| && forall k :: i <= k < j ==> !IsSpace(s[k])
    ensures NonSpace(s[i..j]) == s[i..j]
  {
    forall k | 0 <= k < j - i ensures !IsSpace(s[i..j][k]) {
      assert s[i..j][k] == s[i + k];
    }
    NonSpaceNoSpace(s[i..j]);
  }
}
