/** `MetadataExtractor.generate_summary`: the text is cut at runs of `.`, `!`
    and `?`; the stripped pieces longer than 20 characters are the sentences.
    When there are no more of them than asked for, all are joined; otherwise
    each is scored by how many of its words are keywords, the best-scored are
    picked by a stable sort, and the picked ones are output in text order. */
module Summary {
  import opened Text
  import opened Seqs
  import opened Keywords

  /** The default `max_sentences`. */
  const DefaultMaxSentences: nat := 3

  /** `max_keywords` of the keyword extraction used for scoring. */
  const ScoringKeywords: int := 20

  predicate IsNonTerminator(c: char) { !IsTerminator(c) }

  /** `re.split(r'[.!?]+', s)`: the pieces between maximal runs of terminators. */
  function Fragments(s: string): (r: seq<string>)
    ensures |r| >= 1
    ensures forall f :: f in r ==> (forall c :: c in f ==> !IsTerminator(c)) && IsInfix(f, s)
    decreases |s|
  {
    var j := Span(s, 0, IsNonTerminator);
    assert IsInfix(s[..j], s) by { SliceIsInfix(s, 0, j); }
    if j == |s| then [s]
    else
      var k := Span(s, j, IsTerminator);
      var rest := Fragments(s[k..]);
      forall f | f in rest ensures IsInfix(f, s) {
        SliceIsInfix(s, k, |s|);
        InfixOfInfix(f, s[k..], s);
      }
      [s[..j]] + rest
  }

  /** The runs of terminators that `re.split` cuts at, in order. */
  function Separators(s: string): (r: seq<string>)
    ensures |r| == |Fragments(s)| - 1
    ensures forall x :: x in r ==> x != [] && forall c :: c in x ==> IsTerminator(c)
    decreases |s|
  {
    var j := Span(s, 0, IsNonTerminator);
    if j == |s| then []
    else [s[j..Span(s, j, IsTerminator)]] + Separators(s[Span(s, j, IsTerminator)..])
  }

  /** `fs[0] + seps[0] + fs[1] + ... + seps[n - 1] + fs[n]`. */
  function Weave(fs: seq<string>, seps: seq<string>): string
    requires |fs| == |seps| + 1
  {
    if seps == [] then fs[0] else fs[0] + seps[0] + Weave(fs[1..], seps[1..])
  }

  /** The pieces of `re.split(r'[.!?]+', s)`, put back together with the
      terminator runs between them, give `s`. */
  lemma {:induction false} FragmentsWeave(s: string)
    ensures Weave(Fragments(s), Separators(s)) == s
    decreases |s|
  {
    var j := Span(s, 0, IsNonTerminator);
    if j < |s| {
      var k := Span(s, j, IsTerminator);
      FragmentsUnfold(s, j, k);
      var fs, seps := Fragments(s[k..]), Separators(s[k..]);
      FragmentsWeave(s[k..]);
      WeaveCons(s[..j], s[j..k], fs, seps);
      SplitThree(s, j, k);
    }
  }

  lemma SplitThree(s: string, j: nat, k: nat)
    requires j <= k <= |s|
    ensures s[..j] + s[j..k] + s[k..] == s
  {
  }

  /** One step of `re.split`: the first piece, the first run of terminators, and the rest. */
  lemma FragmentsUnfold(s: string, j: nat, k: nat)
    requires j == Span(s, 0, IsNonTerminator) && j < |s| && k == Span(s, j, IsTerminator)
    ensures j < k <= |s|
    ensures Fragments(s) == [s[..j]] + Fragments(s[k..])
    ensures Separators(s) == [s[j..k]] + Separators(s[k..])
    ensures |Fragments(s[k..])| == |Separators(s[k..])| + 1
  {
  }

  lemma WeaveCons(f: string, sep: string, fs: seq<string>, seps: seq<string>)
    requires |fs| == |seps| + 1
    ensures Weave([f] + fs, [sep] + seps) == f + sep + Weave(fs, seps)
  {
    assert ([f] + fs)[1..] == fs;
    assert ([sep] + seps)[1..] == seps;
  }

  /** Pieces of `text` free of terminators. */
  predicate PiecesOf(fs: seq<string>, text: string) {
    forall f :: f in fs ==> (forall c :: c in f ==> !IsTerminator(c)) && IsInfix(f, text)
  }

  /** `len(s) > 20`. */
  predicate LongEnough(x: string) { |x| > 20 }

  /** `[f.strip() for f in fs if len(f.strip()) > 20]`. */
  function KeepSentences(fs: seq<string>): (r: seq<string>)
    ensures |r| <= |fs|
    ensures forall x :: x in r ==> |x| > 20
  {
    FilterBy(StripAll(fs), LongEnough)
  }

  /** The kept sentences of pieces of `text` are pieces of `text`, stripped
      and longer than 20 characters. */
  lemma KeepSentencesPieces(fs: seq<string>, text: string)
    requires PiecesOf(fs, text)
    ensures PiecesOf(KeepSentences(fs), text)
    ensures forall x :: x in KeepSentences(fs) ==> |x| > 20 && !IsSpace(x[0]) && !IsSpace(x[|x| - 1])
  {
    var stripped := StripAll(fs);
    var kept := KeepSentences(fs);
    forall x | x in kept
      ensures (forall c :: c in x ==> !IsTerminator(c)) && IsInfix(x, text)
      ensures |x| > 20 && !IsSpace(x[0]) && !IsSpace(x[|x| - 1])
    {
      var i :| 0 <= i < |stripped| && stripped[i] == x;
      var f := fs[i];
      assert f in fs;
      assert (forall c :: c in f ==> !IsTerminator(c)) && IsInfix(f, text);
      StrippedPiece(f, text);
    }
  }

  /** A stripped piece of the text is a piece of the text. */
  lemma StrippedPiece(f: string, text: string)
    requires (forall c :: c in f ==> !IsTerminator(c)) && IsInfix(f, text)
    ensures (forall c :: c in Strip(f) ==> !IsTerminator(c)) && IsInfix(Strip(f), text)
  {
    InfixOfInfix(Strip(f), f, text);
  }

  /** Every piece whose stripped form is longer than 20 characters is kept,
      stripped, and the kept ones are in the order of the pieces. */
  lemma KeepSentencesOrder(fs: seq<string>) returns (idx: seq<nat>)
    ensures SubsequenceAt(KeepSentences(fs), StripAll(fs), idx)
    ensures forall q :: 0 <= q < |fs| ==> (q in idx <==> |Strip(fs[q])| > 20)
  {
    idx := FilterByExact(StripAll(fs), LongEnough);
  }

  /** The sentences of `text`. */
  function Sentences(text: string): (r: seq<string>)
    ensures forall x :: x in r ==>
              |x| > 20 && (forall c :: c in x ==> !IsTerminator(c)) && IsInfix(x, text)
    ensures forall x :: x in r ==> !IsSpace(x[0]) && !IsSpace(x[|x| - 1])
  {
    KeepSentencesPieces(Fragments(text), text);
    KeepSentences(Fragments(text))
  }

  /** The sentences are exactly the pieces of `re.split` whose stripped form
      is longer than 20 characters, stripped, in text order. */
  lemma SentencesOrder(text: string) returns (idx: seq<nat>)
    ensures SubsequenceAt(Sentences(text), StripAll(Fragments(text)), idx)
    ensures forall q :: 0 <= q < |Fragments(text)| ==> (q in idx <==> |Strip(Fragments(text)[q])| > 20)
  {
    idx := KeepSentencesOrder(Fragments(text));
  }

  /** `sum(1 for word in sentence.lower().split() if word in keyword_set)`. */
  function Score(sentence: string, keywords: seq<string>): (r: nat)
    ensures r <= |Words(Lower(sentence))|
  {
    |FilterIn(Words(Lower(sentence)), keywords)|
  }

  /** `sentence_scores` before sorting: each sentence with its score. */
  function Scored(sentences: seq<string>, keywords: seq<string>): (r: seq<(string, nat)>)
    ensures |r| == |sentences|
  {
    seq(|sentences|, k requires 0 <= k < |sentences| => (sentences[k], Score(sentences[k], keywords)))
  }

  /** `top_sentences`: the sentences of the first `m` pairs after the stable
      sort by descending score. */
  function TopSentences(sentences: seq<string>, keywords: seq<string>, m: nat): (r: seq<string>)
    ensures |r| <= m && |r| <= |sentences|
  {
    Firsts(Take(SortDesc(Scored(sentences, keywords)), m))
  }

  /** `summary_sentences`: the sentences that are among the top ones, in text
      order, stopping once `m` have been taken. */
  function Chosen(sentences: seq<string>, top: seq<string>, m: nat): (r: seq<string>)
    ensures |r| <= m
    ensures forall x :: x in r ==> x in sentences && x in top
  {
    Take(FilterIn(sentences, top), m)
  }

  /** The sentences the summary is made of. */
  function SummarySentences(text: string, m: nat): seq<string> {
    var ss := Sentences(text);
    if |ss| <= m then ss
    else Chosen(ss, TopSentences(ss, KeywordsOf(text, ScoringKeywords), m), m)
  }

  /** What `generate_summary(text, m)` returns on its normal path. */
  function SummaryOf(text: string, m: nat): (r: string)
    ensures |r| > 0 && r[|r| - 1] == '.'
  {
    EndsInDot(Join(". ", SummarySentences(text, m)));
    Join(". ", SummarySentences(text, m)) + "."
  }

  /** `generate_summary(text, max_sentences)`. */
  method GenerateSummary(text: string, maxSentences: nat) returns (summary: string)
    ensures summary == SummaryOf(text, maxSentences)
  {
    var sentences := Sentences(text);
    if |sentences| <= maxSentences {
      summary := Join(". ", sentences) + ".";
      assert sentences == SummarySentences(text, maxSentences);
      return;
    }
    var keywords := ExtractKeywords(text, ScoringKeywords);
    var scores := ScoreSentences(sentences, keywords);
    scores := SortDesc(scores);
    var top := Firsts(Take(scores, maxSentences));
    var chosen := PickInOrder(sentences, top, maxSentences);
    ScoringPath(text, maxSentences);
    assert chosen == SummarySentences(text, maxSentences);
    summary := Join(". ", chosen) + ".";
  }

  lemma EndsInDot(s: string)
    ensures |s + "."| > 0 && (s + ".")[|s + "."| - 1] == '.'
  {
  }

  /** On the scoring path the summary sentences are those `Chosen` from the top ones. */
  lemma ScoringPath(text: string, m: nat)
    requires |Sentences(text)| > m
    ensures SummarySentences(text, m) == Chosen(Sentences(text), Top(text, m), m)
  {
  }

  /** The scoring loop of `generate_summary`. */
  method ScoreSentences(sentences: seq<string>, keywords: seq<string>) returns (scores: seq<(string, nat)>)
    ensures scores == Scored(sentences, keywords)
  {
    scores := [];
    for i := 0 to |sentences|
      invariant |scores| == i
      invariant forall k :: 0 <= k < i ==> scores[k] == (sentences[k], Score(sentences[k], keywords))
    {
      var words := Words(Lower(sentences[i]));
      var score := |FilterIn(words, keywords)|;
      scores := scores + [(sentences[i], score)];
    }
  }

  /** The loop of `generate_summary` that keeps the top sentences in text
      order and breaks once `m` have been kept. */
  method PickInOrder(sentences: seq<string>, top: seq<string>, m: nat) returns (chosen: seq<string>)
    requires |top| <= m
    ensures chosen == Chosen(sentences, top, m)
  {
    chosen := [];
    var i := 0;
    while i < |sentences|
      invariant 0 <= i <= |sentences|
      invariant chosen == FilterIn(sentences[..i], top)
      invariant |chosen| <= m
      invariant i > 0 ==> |chosen| < m
    {
      FilterInStep(sentences, top, i);
      if sentences[i] in top {
        chosen := chosen + [sentences[i]];
      }
      if |chosen| >= m {
        FilterInFull(sentences, top, m, i + 1);
        return;
      }
      i := i + 1;
    }
    assert sentences[..i] == sentences;
  }

  /** Extending the scanned prefix by one sentence extends the filter by at most that one. */
  lemma FilterInStep(sentences: seq<string>, top: seq<string>, i: nat)
    requires i < |sentences|
    ensures FilterIn(sentences[..i + 1], top) ==
              FilterIn(sentences[..i], top) + (if sentences[i] in top then [sentences[i]] else [])
  {
    assert sentences[..i + 1] == sentences[..i] + [sentences[i]];
    FilterInAppend(sentences[..i], [sentences[i]], top);
  }

  /** Once the scanned prefix has `m` of the top sentences, they are the first
      `m` of the whole filter. */
  lemma FilterInFull(sentences: seq<string>, top: seq<string>, m: nat, i: nat)
    requires i <= |sentences| && |FilterIn(sentences[..i], top)| == m
    ensures FilterIn(sentences[..i], top) == Chosen(sentences, top, m)
  {
    assert sentences == sentences[..i] + sentences[i..];
    FilterInAppend(sentences[..i], sentences[i..], top);
  }

  // ---------------------------------------------------------------------------
  // Properties

  /** The summary is made only of sentences of the text. */
  lemma {:induction false} SummarySubset(text: string, m: nat)
    ensures forall x :: x in SummarySentences(text, m) ==> x in Sentences(text)
  {
  }

  /** With no more sentences than asked for, the summary is all of them joined
      by ". " with a final ".". */
  lemma {:induction false} SummaryShort(text: string, m: nat)
    requires |Sentences(text)| <= m
    ensures SummaryOf(text, m) == Join(". ", Sentences(text)) + "."
  {
  }

  /** A text without a sentence longer than 20 characters, the empty text
      among them, gives ".". */
  lemma {:induction false} SummaryNoSentences(text: string, m: nat)
    requires Sentences(text) == []
    ensures SummaryOf(text, m) == "."
  {
  }

  lemma {:induction false} SummaryEmptyText(m: nat)
    ensures SummaryOf("", m) == "."
  {
    assert Fragments("") == [""];
    assert |Strip("")| == 0;
    assert KeepSentences([""]) == [];
    assert Sentences("") == [];
    SummaryNoSentences("", m);
  }

  /** The keywords the scoring path uses. */
  function ScoringKeywordsOf(text: string): seq<string> {
    KeywordsOf(text, ScoringKeywords)
  }

  /** `top_sentences` for `text`. */
  function Top(text: string, m: nat): seq<string> {
    TopSentences(Sentences(text), ScoringKeywordsOf(text), m)
  }

  /** `chosen` is what the summary may take from `ss`: at most `m` sentences,
      all in `top`, in order at positions `idx`, and a sentence in `top` is
      passed over only once `m` sentences before it have been taken. */
  predicate ChosenFrom(chosen: seq<string>, ss: seq<string>, top: seq<string>, m: nat, idx: seq<nat>) {
    && |chosen| <= m
    && SubsequenceAt(chosen, ss, idx)
    && (forall x :: x in chosen ==> x in top)
    && (forall q :: 0 <= q < |ss| && ss[q] in top && q !in idx ==>
          |chosen| == m && forall k :: 0 <= k < |idx| ==> idx[k] < q)
  }

  /** The sentences `Chosen` takes from `ss` meet `ChosenFrom`. */
  lemma {:induction false} ChosenProperties(ss: seq<string>, top: seq<string>, m: nat) returns (idx: seq<nat>)
    ensures ChosenFrom(Chosen(ss, top, m), ss, top, m, idx)
  {
    var all := FilterPositions(ss, top);
    FilterInIndices(ss, top);
    FilterPositionsComplete(ss, top);
    idx := Take(all, m);
    SubsequenceTake(FilterIn(ss, top), ss, all, m);
    forall q | 0 <= q < |ss| && ss[q] in top && q !in idx
      ensures |Chosen(ss, top, m)| == m && forall k :: 0 <= k < |idx| ==> idx[k] < q
    {
      var k :| 0 <= k < |all| && all[k] == q;
      assert k >= m;
    }
  }

  /** On the scoring path the summary takes at most `m` sentences, all of them
      top-scored, in the order of the text (read at the positions `idx`); a
      top-scored sentence of the text is left out only when `m` sentences
      before it were taken. */
  lemma {:induction false} SummaryScored(text: string, m: nat) returns (idx: seq<nat>)
    requires |Sentences(text)| > m
    ensures ChosenFrom(SummarySentences(text, m), Sentences(text), Top(text, m), m, idx)
  {
    ScoringPath(text, m);
    idx := ChosenProperties(Sentences(text), Top(text, m), m);
  }

  /** Of the sentences `ss` scored against `kw`, one among the first `m` after
      the stable sort scores at least as high as one that is not. */
  lemma {:induction false} TopScoresOf(ss: seq<string>, kw: seq<string>, m: nat, a: nat, b: nat)
    requires a < |ss| && b < |ss|
    requires ss[a] in TopSentences(ss, kw, m) && ss[b] !in TopSentences(ss, kw, m)
    ensures Score(ss[a], kw) >= Score(ss[b], kw)
  {
    var scored := Scored(ss, kw);
    var sorted := SortDesc(scored);
    var t := Take(sorted, m);
    SortDescProperties(scored);
    var i :| 0 <= i < |t| && Firsts(t)[i] == ss[a];
    assert t[i] == sorted[i] && sorted[i] in multiset(scored);
    var j :| 0 <= j < |scored| && scored[j] == t[i];
    assert t[i].1 == Score(ss[a], kw);
    var q := scored[b];
    assert q in multiset(sorted);
    forall k | 0 <= k < |t| ensures t[k] != q {
      assert Firsts(t)[k] == t[k].0;
    }
    TakeLeftOut(sorted, m, q);
    assert t[i] in t;
  }

  /** A top-scored sentence of the text scores at least as high as any
      sentence that is not among the top ones. */
  lemma {:induction false} TopScores(text: string, m: nat, a: nat, b: nat)
    requires a < |Sentences(text)| && b < |Sentences(text)|
    requires Sentences(text)[a] in Top(text, m) && Sentences(text)[b] !in Top(text, m)
    ensures Score(Sentences(text)[a], ScoringKeywordsOf(text)) >= Score(Sentences(text)[b], ScoringKeywordsOf(text))
  {
    TopScoresOf(Sentences(text), ScoringKeywordsOf(text), m, a, b);
  }

  /** The (position, score) pairs of the sentences: the list that line 264
      sorts, with each sentence replaced by where it stands. */
  function Indexed(ss: seq<string>, kw: seq<string>): (r: seq<(nat, nat)>)
    ensures |r| == |ss| && forall k :: 0 <= k < |ss| ==> r[k] == (k, Score(ss[k], kw))
  {
    seq(|ss|, k requires 0 <= k < |ss| => (k, Score(ss[k], kw)))
  }

  /** The top list read through the sorted (position, score) pairs. */
  lemma TopByPositions(ss: seq<string>, kw: seq<string>, m: nat, f: nat -> string)
    requires forall k :: 0 <= k < |ss| ==> f(k) == ss[k]
    ensures TopSentences(ss, kw, m) == Firsts(Take(MapFirsts(f, SortDesc(Indexed(ss, kw))), m))
  {
    assert Scored(ss, kw) == MapFirsts(f, Indexed(ss, kw));
    SortDescMap(f, Indexed(ss, kw));
  }

  /** Of two sentences with equal scores, the one standing before every
      occurrence of the other enters the top list whenever the other does:
      the sort is stable over positions, also when a sentence occurs twice. */
  lemma {:induction false} TopTiesOf(ss: seq<string>, kw: seq<string>, m: nat, a: nat, b: nat)
    requires a < |ss| && b < |ss| && a < FirstIndex(ss, ss[b])
    requires Score(ss[a], kw) == Score(ss[b], kw)
    requires ss[b] in TopSentences(ss, kw, m)
    ensures ss[a] in TopSentences(ss, kw, m)
  {
    var f := (k: nat) => if k < |ss| then ss[k] else "";
    TopByPositions(ss, kw, m, f);
    var ix := Indexed(ss, kw);
    TakeTiesMapped(ss, ix, f, m, a, b);
  }

  /** `TopTiesOf` for the sentences of `text`. */
  lemma TopTies(text: string, m: nat, a: nat, b: nat)
    requires a < |Sentences(text)| && b < |Sentences(text)| && a < FirstIndex(Sentences(text), Sentences(text)[b])
    requires Score(Sentences(text)[a], ScoringKeywordsOf(text)) == Score(Sentences(text)[b], ScoringKeywordsOf(text))
    requires Sentences(text)[b] in Top(text, m)
    ensures Sentences(text)[a] in Top(text, m)
  {
    TopTiesOf(Sentences(text), ScoringKeywordsOf(text), m, a, b);
  }
}
