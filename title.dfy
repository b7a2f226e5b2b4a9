/** `MetadataExtractor.extract_title`: the first acceptable match of three line
    patterns among the first five meaningful lines, else the first meaningful
    line without a leading "page N" / "chapter N", else a sentinel. */
module Title {
  import opened Wrappers
  import opened Text
  import opened Seqs

  const Untitled: string := "Untitled Document"

  /** `10 < len(line) < 200`. */
  predicate MeaningfulLength(l: string) { 10 < |l| < 200 }

  /** The stripped lines whose length lies strictly between 10 and 200. */
  function Meaningful(lines: seq<string>): (r: seq<string>)
    ensures forall l :: l in r ==> 10 < |l| < 200 && !IsSpace(l[0]) && !IsSpace(l[|l| - 1])
    ensures forall l :: l in r ==> exists l0 :: l0 in lines && IsInfix(l, l0)
  {
    StrippedPieces(lines);
    FilterBy(StripAll(lines), MeaningfulLength)
  }

  /** Each stripped line is a piece of an input line. */
  lemma StrippedPieces(lines: seq<string>)
    ensures forall l :: l in StripAll(lines) ==> exists l0 :: l0 in lines && IsInfix(l, l0)
  {
    var stripped := StripAll(lines);
    forall l | l in stripped ensures exists l0 :: l0 in lines && IsInfix(l, l0) {
      var i :| 0 <= i < |stripped| && stripped[i] == l;
      assert lines[i] in lines;
    }
  }

  /** Every line whose stripped form has a length strictly between 10 and 200
      is kept, stripped, and the kept lines are in the order of the input. */
  lemma MeaningfulOrder(lines: seq<string>) returns (idx: seq<nat>)
    ensures SubsequenceAt(Meaningful(lines), StripAll(lines), idx)
    ensures forall q :: 0 <= q < |lines| ==> (q in idx <==> 10 < |Strip(lines[q])| < 200)
  {
    idx := FilterByExact(StripAll(lines), MeaningfulLength);
  }

  /** `meaningful_lines`: every one is a newline-free piece of the text. */
  function MeaningfulLines(text: string): (r: seq<string>)
    ensures forall l :: l in r ==> 10 < |l| < 200 && '\n' !in l && IsInfix(l, text)
  {
    var r := Meaningful(Lines(text));
    forall l | l in r ensures '\n' !in l && IsInfix(l, text) {
      var l0 :| l0 in Lines(text) && IsInfix(l, l0);
      InfixChars(l, l0);
      InfixOfInfix(l, l0, text);
    }
    r
  }

  /** The meaningful lines of `text` are its `split('\n')` lines stripped and
      kept when their length lies strictly between 10 and 200, in text order. */
  lemma MeaningfulLinesOrder(text: string) returns (idx: seq<nat>)
    ensures SubsequenceAt(MeaningfulLines(text), StripAll(Lines(text)), idx)
    ensures forall q :: 0 <= q < |Lines(text)| ==> (q in idx <==> 10 < |Strip(Lines(text)[q])| < 200)
  {
    idx := MeaningfulOrder(Lines(text));
  }

  // ---------------------------------------------------------------------------
  // The three patterns, searched with re.IGNORECASE on one meaningful line.
  // A line holds no '\n', so '.' matches each of its characters and '$' is its end.

  datatype TitlePattern = Label | TwoPart | Capitalised

  const TitlePatterns: seq<TitlePattern> := [Label, TwoPart, Capitalised]

  /** Group 1 of `^title[:\s]+(.+)$`. The greedy `[:\s]+` takes at least one
      character and gives back its last one only when nothing else is left
      for `(.+)`. */
  function LabelGroup(line: string): (g: Option<string>)
    ensures g.Some? <==> WordAt(line, 0, "title") && |line| >= 7 && IsColonOrSpace(line[5])
    ensures g.Some? ==> IsInfix(g.value, line) && g.value != [] && |line| - |g.value| >= 6
    ensures g.Some? ==> g.value == line[|line| - |g.value|..]
    ensures g.Some? ==> forall k :: 5 <= k < |line| - |g.value| ==> IsColonOrSpace(line[k])
    ensures g.Some? && IsColonOrSpace(g.value[0]) ==> |g.value| == 1
  {
    if !WordAt(line, 0, "title") then None
    else
      var q := Span(line, 5, IsColonOrSpace);
      if q == 5 then None
      else if q < |line| then
        SliceIsInfix(line, q, |line|);
        Some(line[q..])
      else if q >= 7 then
        SliceIsInfix(line, q - 1, |line|);
        Some(line[q - 1..])
      else None
  }

  /** The class `[-â€”]` of the source under re.IGNORECASE: a hyphen, U+00E2 and
      its upper case U+00C2, U+20AC and U+201D (the bytes of an em-dash read
      as cp1252); the em-dash itself is not in it. */
  predicate IsSeparator(c: char) {
    c == '-' || c == '\U{E2}' || c == '\U{C2}' || c == '\U{20AC}' || c == '\U{201D}'
  }

  /** `\s*[-â€”]\s*(.+)$` matches from position `j`. */
  predicate SeparatorAt(line: string, j: nat)
    requires j <= |line|
  {
    var q := SkipSpace(line, j);
    q + 1 < |line| && IsSeparator(line[q])
  }

  /** The end of group 1 of `^(.+)\s*[-â€”]\s*(.+)$`: the greedy `(.+)` is
      tried at every length from `j` down to 1. */
  function TwoPartEnd(line: string, j: nat): (e: Option<nat>)
    requires j <= |line|
    ensures e.Some? ==> 1 <= e.value <= j && SeparatorAt(line, e.value)
    ensures e.Some? ==> forall k :: e.value < k <= j ==> !SeparatorAt(line, k)
    ensures e.None? ==> forall k :: 1 <= k <= j ==> !SeparatorAt(line, k)
  {
    if j == 0 then None
    else if SeparatorAt(line, j) then Some(j)
    else TwoPartEnd(line, j - 1)
  }

  function TwoPartGroup(line: string): (g: Option<string>)
    ensures g.Some? ==> IsInfix(g.value, line)
  {
    match TwoPartEnd(line, |line|)
    case None => None
    case Some(e) => SliceIsInfix(line, 0, e); Some(line[..e])
  }

  /** Pattern 2 matches exactly when a separator stands somewhere other than at
      the first or the last position, and its group is then everything before
      the last such separator. */
  lemma TwoPartLastSeparator(line: string)
    ensures TwoPartGroup(line).Some? <==>
              exists s :: 1 <= s < |line| - 1 && IsSeparator(line[s])
    ensures TwoPartGroup(line).Some? ==>
              var e := |TwoPartGroup(line).value|;
              e < |line| - 1 && IsSeparator(line[e]) &&
              forall s :: e < s < |line| - 1 ==> !IsSeparator(line[s])
  {
    var r := TwoPartEnd(line, |line|);
    forall s | 1 <= s < |line| - 1 && IsSeparator(line[s]) ensures SeparatorAt(line, s) {
      assert SkipSpace(line, s) == s;
    }
    if r.Some? {
      var e := r.value;
      var q := SkipSpace(line, e);
      assert SeparatorAt(line, q) by {
        assert SkipSpace(line, q) == q;
      }
      assert e == q;
      assert 1 <= e < |line| - 1 && IsSeparator(line[e]);
    }
  }

  /** Group 1 of `^\s*([A-Z][^.!?]*[^.!?\s])\s*$`; under re.IGNORECASE `[A-Z]`
      is any letter. The group runs from the first to the last non-blank
      character, which must be at least two apart in a line free of `.!?`. */
  function CapitalisedGroup(line: string): (g: Option<string>)
    ensures g.Some? ==> IsInfix(g.value, line)
  {
    var p := SkipSpace(line, 0);
    var e := TrimEnd(line, p);
    if p + 2 <= e && IsLetter(line[p]) && forall k :: p <= k < e ==> !IsTerminator(line[k]) then
      SliceIsInfix(line, p, e);
      Some(line[p..e])
    else None
  }

  function Group(p: TitlePattern, line: string): (g: Option<string>)
    ensures g.Some? ==> IsInfix(g.value, line)
  {
    match p
    case Label => LabelGroup(line)
    case TwoPart => TwoPartGroup(line)
    case Capitalised => CapitalisedGroup(line)
  }

  /** What a pattern proposes for a line: its stripped group, kept only when
      longer than 5 characters. */
  function Candidate(p: TitlePattern, line: string): (t: Option<string>)
    ensures t.Some? ==> |t.value| > 5 && IsInfix(t.value, line)
    ensures t.Some? <==> Group(p, line).Some? && |Strip(Group(p, line).value)| > 5
    ensures t.Some? ==> t.value == Strip(Group(p, line).value)
  {
    match Group(p, line)
    case None => None
    case Some(g) =>
      var t := Strip(g);
      if |t| > 5 then InfixOfInfix(t, g, line); Some(t) else None
  }

  /** What each pattern proposes for `line`, in pattern order. */
  function Proposals(line: string): (ps: seq<Option<string>>)
    ensures |ps| == 3
    ensures forall k :: 0 <= k < 3 ==> ps[k] == Candidate(TitlePatterns[k], line)
  {
    seq(3, k requires 0 <= k < 3 => Candidate(TitlePatterns[k], line))
  }

  /** The inner loop: the patterns tried in order on one line. */
  function FirstCandidate(line: string): (t: Option<string>)
    ensures t.Some? ==> |t.value| > 5 && IsInfix(t.value, line)
  {
    var ps := Proposals(line);
    var t := FirstSome(ps, 0);
    if t.Some? then
      var k :| 0 <= k < 3 && ps[k] == t;
      t
    else t
  }

  /** What the inner loop finds on each line, in line order. */
  function LineResults(lines: seq<string>): (rs: seq<Option<string>>)
    ensures |rs| == |lines|
    ensures forall i :: 0 <= i < |lines| ==> rs[i] == FirstCandidate(lines[i])
  {
    seq(|lines|, i requires 0 <= i < |lines| => FirstCandidate(lines[i]))
  }

  /** The outer loop: lines tried in order, each against every pattern. */
  function SearchLines(lines: seq<string>): (t: Option<string>)
    ensures t.Some? ==> |t.value| > 5 && exists l :: l in lines && IsInfix(t.value, l)
  {
    var rs := LineResults(lines);
    var t := FirstSome(rs, 0);
    if t.Some? then
      var i :| 0 <= i < |rs| && rs[i] == t;
      assert lines[i] in lines && IsInfix(t.value, lines[i]);
      t
    else t
  }

  /** `^(page\s*\d+|chapter\s*\d+)` with re.IGNORECASE: where the leading
      `word\s*\d+` ends, if it is there. */
  function ArtifactEnd(s: string, word: string): (d: Option<nat>)
    ensures d.Some? ==> d.value <= |s|
  {
    if !WordAt(s, 0, word) then None
    else
      var q := SkipSpace(s, |word|);
      var d := Span(s, q, IsDigit);
      if d > q then Some(d) else None
  }

  /** The `re.sub` that removes a leading "page N" or "chapter N". */
  function DropArtifact(s: string): (r: string)
    ensures IsInfix(r, s)
  {
    match ArtifactEnd(s, "page")
    case Some(d) => SliceIsInfix(s, d, |s|); s[d..]
    case None =>
      match ArtifactEnd(s, "chapter")
      case Some(d) => SliceIsInfix(s, d, |s|); s[d..]
      case None => SliceIsInfix(s, 0, |s|); s
  }

  /** The fallback: the first meaningful line cleaned of artifacts. */
  function Fallback(first: string): (t: string)
    ensures t == Untitled || (|t| > 5 && IsInfix(t, first))
  {
    var f := Strip(DropArtifact(first));
    if |f| > 5 then InfixOfInfix(f, DropArtifact(first), first); f else Untitled
  }

  /** `extract_title(text)`. Every title other than the sentinel is a piece of
      one line of the text longer than 5 characters. */
  function ExtractTitle(text: string): (title: string)
    ensures |title| > 5
    ensures MeaningfulLines(text) == [] ==> title == Untitled
    ensures title == Untitled || ('\n' !in title && IsInfix(title, text))
  {
    var lines := MeaningfulLines(text);
    if lines == [] then Untitled
    else
      match SearchLines(Take(lines, 5))
      case Some(t) =>
        var l :| l in Take(lines, 5) && IsInfix(t, l);
        PieceOfMeaningful(text, l, t);
        t
      case None =>
        var t := Fallback(lines[0]);
        if t != Untitled then PieceOfMeaningful(text, lines[0], t); t else t
  }

  /** A piece of a meaningful line is a newline-free piece of the text. */
  lemma PieceOfMeaningful(text: string, l: string, t: string)
    requires l in MeaningfulLines(text) || l in Take(MeaningfulLines(text), 5)
    requires IsInfix(t, l)
    ensures '\n' !in t && IsInfix(t, text)
  {
    assert l in MeaningfulLines(text);
    InfixChars(t, l);
    InfixOfInfix(t, l, text);
  }

  // ---------------------------------------------------------------------------
  // The search order: line by line, and on each line pattern by pattern.

  /** (i', k') comes before (i, k) in line-then-pattern order. */
  predicate Before(i': nat, k': nat, i: nat, k: nat) {
    i' < i || (i' == i && k' < k)
  }

  /** The inner loop finds nothing exactly when no pattern proposes a title. */
  lemma FirstCandidateNone(line: string)
    ensures FirstCandidate(line).None? <==>
              forall k :: 0 <= k < 3 ==> Candidate(TitlePatterns[k], line).None?
  {
    FirstSomeNone(Proposals(line), 0);
  }

  /** The inner loop returns the proposal of the first pattern that makes one. */
  lemma FirstCandidateFirst(line: string, k: nat)
    requires k < 3 && Candidate(TitlePatterns[k], line).Some?
    requires forall k' :: 0 <= k' < k ==> Candidate(TitlePatterns[k'], line).None?
    ensures FirstCandidate(line) == Candidate(TitlePatterns[k], line)
  {
    FirstSomeLeftmost(Proposals(line), 0, k);
  }

  /** The search finds nothing exactly when no pattern proposes a title for any line. */
  lemma SearchLinesNone(lines: seq<string>)
    ensures SearchLines(lines).None? <==>
              forall i, k :: 0 <= i < |lines| && 0 <= k < 3 ==> Candidate(TitlePatterns[k], lines[i]).None?
  {
    FirstSomeNone(LineResults(lines), 0);
    forall i | 0 <= i < |lines| {
      FirstCandidateNone(lines[i]);
    }
  }

  /** The search returns the candidate of the first (line, pattern) pair, in
      line-then-pattern order, that proposes one. */
  lemma SearchLinesFirst(lines: seq<string>, i: nat, k: nat)
    requires i < |lines| && k < 3
    requires Candidate(TitlePatterns[k], lines[i]).Some?
    requires forall i': nat, k': nat :: i' < |lines| && k' < 3 && Before(i', k', i, k) ==>
               Candidate(TitlePatterns[k'], lines[i']).None?
    ensures SearchLines(lines) == Candidate(TitlePatterns[k], lines[i])
  {
    forall i' | 0 <= i' < i ensures FirstCandidate(lines[i']).None? {
      forall k': nat | k' < 3 ensures Candidate(TitlePatterns[k'], lines[i']).None? {
        assert Before(i', k', i, k);
      }
      FirstCandidateNone(lines[i']);
    }
    forall k': nat | k' < k ensures Candidate(TitlePatterns[k'], lines[i]).None? {
      assert Before(i, k', i, k);
    }
    FirstCandidateFirst(lines[i], k);
    FirstSomeLeftmost(LineResults(lines), 0, i);
  }

  /** No line whose stripped length lies strictly between 10 and 200 means no
      meaningful line. */
  lemma MeaningfulNone(lines: seq<string>)
    requires forall l :: l in lines ==> |Strip(l)| <= 10 || |Strip(l)| >= 200
    ensures Meaningful(lines) == []
  {
    var stripped := StripAll(lines);
    forall q | 0 <= q < |stripped| ensures !MeaningfulLength(stripped[q]) {
      assert lines[q] in lines;
    }
    FilterByNone(stripped, MeaningfulLength);
  }


  /** The title is the sentinel when no line of the text, stripped, is longer
      than 10 and shorter than 200 characters. */
  lemma TitleUntitled(text: string)
    requires forall l :: l in Lines(text) ==> |Strip(l)| <= 10 || |Strip(l)| >= 200
    ensures ExtractTitle(text) == Untitled
  {
    MeaningfulNone(Lines(text));
  }

  /** A pattern match on one of the first five meaningful lines decides the
      title when no earlier line, and no earlier pattern on the same line,
      proposed one. */
  lemma TitleFromPattern(text: string, i: nat, k: nat)
    requires i < 5 && i < |MeaningfulLines(text)| && k < 3
    requires Candidate(TitlePatterns[k], MeaningfulLines(text)[i]).Some?
    requires forall i': nat, k': nat :: i' < |MeaningfulLines(text)| && k' < 3 && Before(i', k', i, k) ==>
               Candidate(TitlePatterns[k'], MeaningfulLines(text)[i']).None?
    ensures ExtractTitle(text) == Candidate(TitlePatterns[k], MeaningfulLines(text)[i]).value
  {
    FirstFiveFound(MeaningfulLines(text), i, k);
    TitleWhenFound(text);
  }

  lemma FirstFiveFound(lines: seq<string>, i: nat, k: nat)
    requires i < 5 && i < |lines| && k < 3
    requires Candidate(TitlePatterns[k], lines[i]).Some?
    requires forall i': nat, k': nat :: i' < |lines| && k' < 3 && Before(i', k', i, k) ==>
               Candidate(TitlePatterns[k'], lines[i']).None?
    ensures SearchLines(Take(lines, 5)) == Candidate(TitlePatterns[k], lines[i])
  {
    var first := Take(lines, 5);
    assert first[i] == lines[i];
    forall i': nat, k': nat | i' < |first| && k' < 3 && Before(i', k', i, k)
      ensures Candidate(TitlePatterns[k'], first[i']).None?
    {
      assert first[i'] == lines[i'];
    }
    SearchLinesFirst(first, i, k);
  }

  /** Lines after the fifth are never tried: when none of the first five yields
      a candidate the title is the cleaned first line, or the sentinel. */
  lemma TitleFromFirstLine(text: string)
    requires MeaningfulLines(text) != []
    requires forall i: nat, k: nat :: i < 5 && i < |MeaningfulLines(text)| && k < 3 ==>
               Candidate(TitlePatterns[k], MeaningfulLines(text)[i]).None?
    ensures ExtractTitle(text) == Fallback(MeaningfulLines(text)[0])
    ensures ExtractTitle(text) == Untitled ||
              ExtractTitle(text) == Strip(DropArtifact(MeaningfulLines(text)[0]))
  {
    FirstFiveNone(MeaningfulLines(text));
    TitleWhenNotFound(text);
  }

  lemma FirstFiveNone(lines: seq<string>)
    requires forall i: nat, k: nat :: i < 5 && i < |lines| && k < 3 ==> Candidate(TitlePatterns[k], lines[i]).None?
    ensures SearchLines(Take(lines, 5)).None?
  {
    var first := Take(lines, 5);
    forall i, k | 0 <= i < |first| && 0 <= k < 3 ensures Candidate(TitlePatterns[k], first[i]).None? {
      assert first[i] == lines[i];
    }
    SearchLinesNone(first);
  }

  /** A proposal found among the first five meaningful lines is the title. */
  lemma TitleWhenFound(text: string)
    requires MeaningfulLines(text) != [] && SearchLines(Take(MeaningfulLines(text), 5)).Some?
    ensures ExtractTitle(text) == SearchLines(Take(MeaningfulLines(text), 5)).value
  {
  }

  /** With no proposal among the first five meaningful lines, the fallback decides. */
  lemma TitleWhenNotFound(text: string)
    requires MeaningfulLines(text) != [] && SearchLines(Take(MeaningfulLines(text), 5)).None?
    ensures ExtractTitle(text) == Fallback(MeaningfulLines(text)[0])
  {
  }
}
