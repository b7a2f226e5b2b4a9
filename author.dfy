/** `MetadataExtractor.extract_author`: four label patterns tried in order over
    the whole text (re.IGNORECASE | re.MULTILINE); the first match of the
    first pattern that matches at all is cleaned and length-checked, and a
    pattern whose first match fails the check gives way to the next one. */
module Author {
  import opened Wrappers
  import opened Text
  import opened Seqs

  const UnknownAuthor: string := "Unknown Author"

  datatype AuthorPattern =
    | Label      // author[:\s]+([^\n]+)
    | By         // by\s+([A-Z][a-z]+\s+[A-Z][a-z]+)
    | WrittenBy  // written\s+by\s+([^\n]+)
    | NameLine   // ^([A-Z][a-z]+\s+[A-Z][a-z]+)\s*$

  const AuthorPatterns: seq<AuthorPattern> := [Label, By, WrittenBy, NameLine]

  /** The end of the line that contains position `k`. */
  function LineEnd(t: string, k: nat): (e: nat)
    requires k <= |t|
    ensures k <= e <= |t| && (e < |t| ==> t[e] == '\n')
    ensures forall m :: k <= m < e ==> t[m] != '\n'
  {
    Span(t, k, IsNonNewline)
  }

  /** `R+([^\n]+)` where the greedy run `R+` starts at `p` and ends at `q`: the
      run gives back characters until `[^\n]+` can start, which needs at
      least one run character kept and a non-newline character next. */
  function RestOfLine(t: string, p: nat, q: nat): (g: Option<string>)
    requires p <= q <= |t|
    ensures g.Some? ==> g.value != [] && '\n' !in g.value
    decreases q
  {
    if q <= p then None
    else if q < |t| && t[q] != '\n' then Some(t[q..LineEnd(t, q)])
    else RestOfLine(t, p, q - 1)
  }

  /** The group is found exactly when some position after `p`, up to `q`,
      holds a non-newline character; it is the rest of the line from the
      largest such position, the one the greedy run gives back to. */
  lemma {:induction false} RestOfLineLast(t: string, p: nat, q: nat)
    requires p <= q <= |t|
    ensures RestOfLine(t, p, q).Some? <==> exists k :: p < k <= q && k < |t| && t[k] != '\n'
    ensures RestOfLine(t, p, q).Some? ==>
              exists k :: p < k <= q && k < |t| && t[k] != '\n'
                && RestOfLine(t, p, q).value == t[k..LineEnd(t, k)]
                && forall m :: k < m <= q && m < |t| ==> t[m] == '\n'
    decreases q
  {
    if p < q && !(q < |t| && t[q] != '\n') {
      RestOfLineLast(t, p, q - 1);
    }
  }

  /** `[A-Z][a-z]+\s+[A-Z][a-z]+` from `i` under re.IGNORECASE: two runs of at
      least two letters separated by whitespace. The first run must end at
      whitespace, so neither greedy run can give anything back; the result is
      where the second run ends. */
  function TwoNamesEnd(t: string, i: nat): (e: Option<nat>)
    requires i <= |t|
    ensures e.Some? ==> i < e.value <= |t|
  {
    var e1 := Span(t, i, IsLetter);
    var s := SkipSpace(t, e1);
    var e2 := Span(t, s, IsLetter);
    if e1 >= i + 2 && s > e1 && e2 >= s + 2 then Some(e2) else None
  }

  /** `author[:\s]+([^\n]+)` from `i`. */
  function LabelAt(t: string, i: nat): (g: Option<string>)
    requires i <= |t|
    ensures g.Some? ==> g.value != []
  {
    if WordAt(t, i, "author") then RestOfLine(t, i + 6, Span(t, i + 6, IsColonOrSpace)) else None
  }

  /** `by\s+([A-Z][a-z]+\s+[A-Z][a-z]+)` from `i`. */
  function ByAt(t: string, i: nat): (g: Option<string>)
    requires i <= |t|
    ensures g.Some? ==> g.value != []
  {
    if WordAt(t, i, "by") then
      var q := SkipSpace(t, i + 2);
      if q > i + 2 then
        match TwoNamesEnd(t, q)
        case Some(e) => Some(t[q..e])
        case None => None
      else None
    else None
  }

  /** `written\s+by\s+([^\n]+)` from `i`. */
  function WrittenByAt(t: string, i: nat): (g: Option<string>)
    requires i <= |t|
    ensures g.Some? ==> g.value != []
  {
    if WordAt(t, i, "written") then
      var q := SkipSpace(t, i + 7);
      if q > i + 7 && WordAt(t, q, "by") then RestOfLine(t, q + 2, SkipSpace(t, q + 2)) else None
    else None
  }

  /** `^([A-Z][a-z]+\s+[A-Z][a-z]+)\s*$` (re.MULTILINE) from `i`. */
  function NameLineAt(t: string, i: nat): (g: Option<string>)
    requires i <= |t|
    ensures g.Some? ==> g.value != []
  {
    if i == 0 || t[i - 1] == '\n' then
      match TwoNamesEnd(t, i)
      case Some(e) =>
        // `\s*$`: the trailing whitespace must reach a newline or the end.
        var r := SkipSpace(t, e);
        if r == |t| || '\n' in t[e..r] then Some(t[i..e]) else None
      case None => None
    else None
  }

  /** Group 1 of pattern `p` when the match starts at position `i`. */
  function MatchAt(p: AuthorPattern, t: string, i: nat): (g: Option<string>)
    requires i <= |t|
    ensures g.Some? ==> g.value != []
  {
    match p
    case Label => LabelAt(t, i)
    case By => ByAt(t, i)
    case WrittenBy => WrittenByAt(t, i)
    case NameLine => NameLineAt(t, i)
  }

  /** What pattern `p` matches at each position of `t`, the end included. */
  function Matches(p: AuthorPattern, t: string): (ms: seq<Option<string>>)
    ensures |ms| == |t| + 1
    ensures forall j :: 0 <= j <= |t| ==> ms[j] == MatchAt(p, t, j)
  {
    seq(|t| + 1, j requires 0 <= j <= |t| => MatchAt(p, t, j))
  }

  /** `re.findall(p, t)[0]`: the match at the leftmost position where there is one. */
  function FirstMatch(p: AuthorPattern, t: string): (g: Option<string>)
    ensures g.Some? ==> g.value != []
  {
    var ms := Matches(p, t);
    var g := FirstSome(ms, 0);
    if g.Some? then
      var j :| 0 <= j < |ms| && ms[j] == g;
      g
    else g
  }

  /** `re.findall` finds nothing exactly when the pattern matches nowhere. */
  lemma FirstMatchNone(p: AuthorPattern, t: string)
    ensures FirstMatch(p, t).None? <==> forall j :: 0 <= j <= |t| ==> MatchAt(p, t, j).None?
  {
    FirstSomeNone(Matches(p, t), 0);
  }

  /** The first element of `re.findall` is the match at the leftmost position where there is one. */
  lemma FirstMatchLeftmost(p: AuthorPattern, t: string, j: nat)
    requires j <= |t| && MatchAt(p, t, j).Some?
    requires forall k :: 0 <= k < j ==> MatchAt(p, t, k).None?
    ensures FirstMatch(p, t) == MatchAt(p, t, j)
  {
    FirstSomeLeftmost(Matches(p, t), 0, j);
  }

  /** The characters `re.sub(r'[^a-zA-Z\s.]', '', ...)` keeps. */
  predicate IsNameChar(c: char) { IsLetter(c) || IsSpace(c) || c == '.' }

  /** `re.sub(r'[^a-zA-Z\s.]', '', s)`. */
  function Clean(s: string): (r: string)
    ensures |r| <= |s|
    ensures forall c :: c in r ==> IsNameChar(c)
    ensures forall c :: c in s && IsNameChar(c) ==> c in r
  {
    CleanKeeps(s);
    FilterBy(s, IsNameChar)
  }

  /** Every kept character survives the filter. */
  lemma CleanKeeps(s: string)
    ensures forall c :: c in s && IsNameChar(c) ==> c in FilterBy(s, IsNameChar)
  {
    var idx := FilterByExact(s, IsNameChar);
    forall c | c in s && IsNameChar(c) ensures c in FilterBy(s, IsNameChar) {
      var q :| 0 <= q < |s| && s[q] == c;
      var k :| 0 <= k < |idx| && idx[k] == q;
      assert FilterBy(s, IsNameChar)[k] == c;
    }
  }

  /** `Clean` keeps exactly the name characters, in the order they stand in. */
  lemma CleanOrder(s: string) returns (idx: seq<nat>)
    ensures SubsequenceAt(Clean(s), s, idx)
    ensures forall q :: 0 <= q < |s| ==> (q in idx <==> IsNameChar(s[q]))
  {
    idx := FilterByExact(s, IsNameChar);
  }

  /** What a pattern contributes: its first match, stripped and cleaned,
      provided the result is longer than 3 and shorter than 50 characters. */
  function Candidate(p: AuthorPattern, t: string): (a: Option<string>)
    ensures a.Some? ==> 3 < |a.value| < 50 && forall c :: c in a.value ==> IsNameChar(c)
    ensures a.Some? <==> FirstMatch(p, t).Some? && 3 < |Clean(Strip(FirstMatch(p, t).value))| < 50
    ensures a.Some? ==> a.value == Clean(Strip(FirstMatch(p, t).value))
  {
    match FirstMatch(p, t)
    case None => None
    case Some(m) =>
      var a := Clean(Strip(m));
      if 3 < |a| < 50 then Some(a) else None
  }

  /** The loop over the patterns. */
  function TryPatterns(t: string, ps: seq<AuthorPattern>): (a: Option<string>)
    ensures a.Some? ==> 3 < |a.value| < 50 && forall c :: c in a.value ==> IsNameChar(c)
  {
    if ps == [] then None
    else match Candidate(ps[0], t)
      case Some(a) => Some(a)
      case None => TryPatterns(t, ps[1..])
  }

  /** `extract_author(text)`: the sentinel, or a name made only of ASCII
      letters, whitespace and periods, with more than 3 and fewer than 50 characters. */
  function ExtractAuthor(text: string): (author: string)
    ensures author == UnknownAuthor ||
              (3 < |author| < 50 && forall c :: c in author ==> IsNameChar(c))
  {
    match TryPatterns(text, AuthorPatterns)
    case Some(a) => a
    case None => UnknownAuthor
  }

  lemma {:induction false} TryPatternsNone(t: string, ps: seq<AuthorPattern>)
    ensures TryPatterns(t, ps).None? <==> forall k :: 0 <= k < |ps| ==> Candidate(ps[k], t).None?
  {
    if ps != [] {
      TryPatternsNone(t, ps[1..]);
      assert forall k :: 1 <= k < |ps| ==> ps[k] == ps[1..][k - 1];
    }
  }

  lemma {:induction false} TryPatternsFirst(t: string, ps: seq<AuthorPattern>, k: nat)
    requires k < |ps| && Candidate(ps[k], t).Some?
    requires forall k' :: 0 <= k' < k ==> Candidate(ps[k'], t).None?
    ensures TryPatterns(t, ps) == Candidate(ps[k], t)
  {
    if k > 0 {
      var rest := ps[1..];
      assert Candidate(ps[0], t).None?;
      assert TryPatterns(t, ps) == TryPatterns(t, rest);
      forall k' | 0 <= k' < k - 1 ensures Candidate(rest[k'], t).None? {
        assert rest[k'] == ps[k' + 1];
      }
      assert rest[k - 1] == ps[k];
      TryPatternsFirst(t, rest, k - 1);
    }
  }

  /** The author comes from the first pattern, in the order Label, By,
      WrittenBy, NameLine, whose first match survives cleaning and the length
      check; a pattern whose first match fails the check falls through. */
  lemma AuthorFromPattern(text: string, k: nat)
    requires k < 4 && Candidate(AuthorPatterns[k], text).Some?
    requires forall k' :: 0 <= k' < k ==> Candidate(AuthorPatterns[k'], text).None?
    ensures ExtractAuthor(text) == Candidate(AuthorPatterns[k], text).value
  {
    TryPatternsFirst(text, AuthorPatterns, k);
  }

  /** When no pattern yields an acceptable name the author is the sentinel.
      (The converse does not hold: "Author: Unknown Author" yields the same
      string through pattern Label.) */
  lemma AuthorUnknown(text: string)
    requires forall k :: 0 <= k < 4 ==> Candidate(AuthorPatterns[k], text).None?
    ensures ExtractAuthor(text) == UnknownAuthor
  {
    TryPatternsNone(text, AuthorPatterns);
  }
}
