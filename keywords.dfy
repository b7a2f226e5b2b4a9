/** `MetadataExtractor.extract_keywords`, with the stop-word set that
    `MetadataExtractor.__init__` builds. The text is lower-cased, every
    character other than `\w`, whitespace and `.` becomes a space, and the
    tokens that pass the filter are tallied by a `Counter`; of its
    `most_common(n)` list the words seen more than once are kept. */
module Keywords {
  import opened Text
  import opened Seqs

  /** `self.stop_words` (the source lists "each" twice; a set holds it once). */
  const StopWords: set<string> := {
    "a", "an", "and", "are", "as", "at", "be", "by", "for", "from",
    "has", "he", "in", "is", "it", "its", "of", "on", "that", "the",
    "to", "was", "will", "with", "but", "or", "not", "this", "can",
    "have", "had", "been", "their", "said", "each", "which", "do",
    "how", "if", "who", "what", "where", "when", "why", "all", "any",
    "both", "few", "more", "most", "other", "some", "such"
  }

  /** The default `max_keywords`. */
  const DefaultMaxKeywords: int := 10

  /** The class `[\w\s.]`: the characters the cleaning keeps. */
  predicate IsKept(c: char) { IsWordChar(c) || IsSpace(c) || c == '.' }

  /** A character of `text.lower()` after `re.sub(r'[^\w\s.]', ' ', ...)`. */
  function Sanitise(c: char): (d: char)
    ensures !IsUpper(d) && IsKept(d)
    ensures IsKept(c) ==> d == ToLower(c)
    ensures !IsKept(c) ==> d == ' '
  {
    var l := ToLower(c);
    if IsKept(l) then l else ' '
  }

  /** The cleaned text: lower case, every character of the class kept, every
      other one replaced by a space. */
  function CleanText(text: string): (r: string)
    ensures |r| == |text|
    ensures forall i :: 0 <= i < |r| ==> !IsUpper(r[i]) && IsKept(r[i])
    ensures forall i :: 0 <= i < |text| && IsKept(text[i]) ==> r[i] == ToLower(text[i])
    ensures forall i :: 0 <= i < |text| && !IsKept(text[i]) ==> r[i] == ' '
  {
    seq(|text|, i requires 0 <= i < |text| => Sanitise(text[i]))
  }

  /** `words = text.split()` on the cleaned text. */
  function Tokens(text: string): seq<string> {
    Words(CleanText(text))
  }

  /** `word.isalpha()`. */
  predicate IsAlpha(w: string) { w != [] && forall c :: c in w ==> IsLetter(c) }

  /** `word.isdigit()`. */
  predicate IsNumeric(w: string) { w != [] && forall c :: c in w ==> IsDigit(c) }

  /** The condition a token must meet to be counted. */
  predicate IsKeywordCandidate(w: string) {
    |w| > 3 && w !in StopWords && !IsNumeric(w) && IsAlpha(w)
  }

  /** `filtered_words` after the loop has looked at the tokens `ws`. */
  function Candidates(ws: seq<string>): (r: seq<string>)
    ensures |r| <= |ws|
    ensures forall w :: w in r ==> IsKeywordCandidate(w) && w in ws
    ensures forall w :: w in ws && IsKeywordCandidate(w) ==> w in r
  {
    if ws == [] then []
    else
      var init := Candidates(ws[..|ws| - 1]);
      assert forall w :: w in ws[..|ws| - 1] ==> w in ws;
      assert forall w :: w in ws ==> w in ws[..|ws| - 1] || w == ws[|ws| - 1];
      if IsKeywordCandidate(ws[|ws| - 1]) then init + [ws[|ws| - 1]] else init
  }

  /** The loop computes the same list as the comprehension
      `[w for w in ws if IsKeywordCandidate(w)]`. */
  lemma {:induction false} CandidatesFilter(ws: seq<string>)
    ensures Candidates(ws) == FilterBy(ws, IsKeywordCandidate)
  {
    if ws != [] {
      var n := |ws| - 1;
      CandidatesFilter(ws[..n]);
      assert ws == ws[..n] + [ws[n]];
      FilterBySnoc(ws[..n], ws[n], IsKeywordCandidate);
    }
  }

  /** The loop keeps exactly the candidate tokens, in order and with their
      repetitions: the result is `ws` read at increasing positions, namely those
      holding a candidate. */
  lemma CandidatesOrder(ws: seq<string>) returns (idx: seq<nat>)
    ensures SubsequenceAt(Candidates(ws), ws, idx)
    ensures forall q :: 0 <= q < |ws| ==> (q in idx <==> IsKeywordCandidate(ws[q]))
  {
    CandidatesFilter(ws);
    idx := FilterByExact(ws, IsKeywordCandidate);
  }

  /** `Counter` over the kept tokens counts a candidate as often as it occurs
      among the tokens, and any other word not at all. */
  lemma {:induction false} CandidatesCount(ws: seq<string>, w: string)
    ensures Count(Candidates(ws), w) == if IsKeywordCandidate(w) then Count(ws, w) else 0
  {
    if ws != [] {
      var n := |ws| - 1;
      CandidatesCount(ws[..n], w);
      assert ws == ws[..n] + [ws[n]];
      assert multiset(ws) == multiset(ws[..n]) + multiset{ws[n]};
    }
  }

  /** The tokens of `text` that are counted. */
  function FilteredWords(text: string): seq<string> {
    Candidates(Tokens(text))
  }

  /** `Counter(ws)[w]`. */
  function Count(ws: seq<string>, w: string): nat {
    multiset(ws)[w]
  }

  /** `Counter(ws).items()`: each distinct word with its count, in first-seen order. */
  function CounterItems(ws: seq<string>): (r: seq<(string, nat)>)
    ensures |r| == |Dedup(ws)|
    ensures forall k :: 0 <= k < |r| ==> r[k] == (Dedup(ws)[k], Count(ws, Dedup(ws)[k]))
  {
    var d := Dedup(ws);
    seq(|d|, k requires 0 <= k < |d| => (d[k], Count(ws, d[k])))
  }

  /** `Counter(ws).most_common(n)`: nothing when `n <= 0` (as `heapq.nlargest`
      gives), otherwise the first `n` items of a stable sort by descending count. */
  function MostCommon(ws: seq<string>, n: int): (r: seq<(string, nat)>)
    ensures n <= 0 ==> r == []
    ensures |r| <= |CounterItems(ws)| && (n > 0 ==> |r| <= n)
  {
    if n <= 0 then [] else Take(SortDesc(CounterItems(ws)), n)
  }

  /** `[word for word, count in pairs if count > 1]`. */
  function Frequent(ps: seq<(string, nat)>): (r: seq<string>)
    ensures |r| <= |ps|
  {
    if ps == [] then []
    else (if ps[0].1 > 1 then [ps[0].0] else []) + Frequent(ps[1..])
  }

  /** The comprehension keeps the word of every pair counted more than once,
      and only those words. */
  lemma {:induction false} FrequentMembers(ps: seq<(string, nat)>)
    ensures forall w :: w in Frequent(ps) ==> exists p :: p in ps && p.0 == w && p.1 > 1
    ensures forall p :: p in ps && p.1 > 1 ==> p.0 in Frequent(ps)
  {
    if ps != [] {
      FrequentMembers(ps[1..]);
      assert forall p :: p in ps ==> p == ps[0] || p in ps[1..];
    }
  }

  /** What `extract_keywords(text, n)` returns. */
  function KeywordsOf(text: string, n: int): (r: seq<string>)
    ensures |r| <= if n > 0 then n else 0
  {
    Frequent(MostCommon(FilteredWords(text), n))
  }

  /** `extract_keywords(text, max_keywords)`. */
  method ExtractKeywords(text: string, maxKeywords: int) returns (keywords: seq<string>)
    ensures keywords == KeywordsOf(text, maxKeywords)
    ensures |keywords| <= if maxKeywords > 0 then maxKeywords else 0
    ensures forall w :: w in keywords ==>
              IsKeywordCandidate(w) && Count(FilteredWords(text), w) > 1
  {
    var words := Words(CleanText(text));
    var filtered: seq<string> := [];
    for i := 0 to |words|
      invariant filtered == Candidates(words[..i])
    {
      assert words[..i + 1][..i] == words[..i];
      if IsKeywordCandidate(words[i]) {
        filtered := filtered + [words[i]];
      }
    }
    assert words[..|words|] == words;
    var common := MostCommon(filtered, maxKeywords);
    keywords := Frequent(common);
    KeywordsProperties(text, maxKeywords);
  }

  // ---------------------------------------------------------------------------
  // Properties

  /** The tokens of the cleaned text have no upper-case letter. */
  lemma {:induction false} TokensLower(text: string)
    ensures forall w, c :: w in Tokens(text) && c in w ==> !IsUpper(c)
  {
    var t := CleanText(text);
    forall w, c | w in Tokens(text) && c in w ensures !IsUpper(c) {
      InfixChars(w, t);
      var i :| 0 <= i < |t| && t[i] == c;
    }
  }

  /** The `Counter` holds each distinct word once, with its number of
      occurrences, in the order the words are first seen. */
  lemma {:induction false} CounterItemsProperties(ws: seq<string>)
    ensures NoDuplicates(CounterItems(ws))
    ensures forall i, j :: 0 <= i < j < |CounterItems(ws)| ==> CounterItems(ws)[i].0 != CounterItems(ws)[j].0
    ensures forall p :: p in CounterItems(ws) ==> p.0 in ws && p.1 == Count(ws, p.0) && p.1 > 0
    ensures forall w :: w in ws ==> (w, Count(ws, w)) in CounterItems(ws)
    ensures forall i, j :: 0 <= i < j < |CounterItems(ws)| ==>
              FirstIndex(ws, CounterItems(ws)[i].0) < FirstIndex(ws, CounterItems(ws)[j].0)
  {
    var items := CounterItems(ws);
    var d := Dedup(ws);
    DedupElements(ws);
    DedupOrder(ws);
    forall p | p in items ensures p.0 in ws && p.1 == Count(ws, p.0) && p.1 > 0 {
      var k :| 0 <= k < |items| && items[k] == p;
      assert d[k] in ws;
    }
    forall w | w in ws ensures (w, Count(ws, w)) in items {
      var k :| 0 <= k < |d| && d[k] == w;
      assert items[k] == (w, Count(ws, w));
    }
  }

  /** Of a list sorted by descending count, the words counted more than once
      form a prefix. */
  lemma {:induction false} FrequentPrefix(ps: seq<(string, nat)>)
    requires NonIncreasing(ps)
    ensures |Frequent(ps)| <= |ps|
    ensures forall i :: 0 <= i < |Frequent(ps)| ==> Frequent(ps)[i] == ps[i].0 && ps[i].1 > 1
    ensures forall i :: |Frequent(ps)| <= i < |ps| ==> ps[i].1 <= 1
  {
    if ps != [] {
      var tl := ps[1..];
      FrequentPrefix(tl);
      if ps[0].1 <= 1 {
        assert forall i :: 0 <= i < |tl| ==> tl[i] == ps[i + 1];
      }
    }
  }

  /** `most_common(n)` has `n` items, or all of them when there are fewer. */
  lemma {:induction false} MostCommonLength(ws: seq<string>, n: int)
    ensures |MostCommon(ws, n)| == if n <= 0 then 0 else if n < |Dedup(ws)| then n else |Dedup(ws)|
  {
  }

  /** Every item of `most_common(n)` is a word of `ws` with its count, and no
      word is listed twice. */
  lemma {:induction false} MostCommonTallies(ws: seq<string>, n: int)
    ensures forall p :: p in MostCommon(ws, n) ==> p.0 in ws && p.1 == Count(ws, p.0)
    ensures forall i, j :: 0 <= i < j < |MostCommon(ws, n)| ==> MostCommon(ws, n)[i].0 != MostCommon(ws, n)[j].0
  {
    if n > 0 {
      var items := CounterItems(ws);
      CounterItemsProperties(ws);
      SortDescProperties(items);
      var sorted := SortDesc(items);
      var mc := MostCommon(ws, n);
      assert forall i :: 0 <= i < |mc| ==> mc[i] == sorted[i] && sorted[i] in multiset(sorted);
      forall i, j | 0 <= i < j < |mc| ensures mc[i].0 != mc[j].0 {
        assert sorted[i] != sorted[j] by {
          SortedDistinct(items, i, j);
        }
      }
    }
  }

  /** A permutation of a sequence without duplicates has none either. */
  lemma {:induction false} SortedDistinct(items: seq<(string, nat)>, i: nat, j: nat)
    requires NoDuplicates(items)
    requires i < j < |SortDesc(items)|
    ensures SortDesc(items)[i] != SortDesc(items)[j]
  {
    var sorted := SortDesc(items);
    SortDescProperties(items);
    PairCount(sorted, i, j);
    NoDuplicatesCount(items, sorted[i]);
  }

  /** Two positions holding the same value count it twice. */
  lemma {:induction false} PairCount<T>(s: seq<T>, i: nat, j: nat)
    requires i < j < |s|
    ensures multiset(s)[s[i]] >= if s[i] == s[j] then 2 else 1
  {
    assert s == s[..j] + [s[j]] + s[j + 1..];
    assert s[..j][i] == s[i];
    assert s[i] in multiset(s[..j]);
  }

  lemma {:induction false} NoDuplicatesCount<T>(s: seq<T>, x: T)
    requires NoDuplicates(s)
    ensures multiset(s)[x] <= 1
  {
    if s != [] {
      var tl := s[1..];
      assert forall i :: 0 <= i < |tl| ==> tl[i] == s[i + 1];
      NoDuplicatesCount(tl, x);
      assert s == [s[0]] + tl;
      assert s[0] !in tl;
    }
  }

  /** `most_common(n)` is ordered by non-increasing count, and items with the
      same count come in the order their words are first seen. */
  lemma {:induction false} MostCommonOrder(ws: seq<string>, n: int)
    ensures forall p :: p in MostCommon(ws, n) ==> p.0 in ws
    ensures NonIncreasing(MostCommon(ws, n))
    ensures forall i, j :: 0 <= i < j < |MostCommon(ws, n)| && MostCommon(ws, n)[i].1 == MostCommon(ws, n)[j].1 ==>
              FirstIndex(ws, MostCommon(ws, n)[i].0) < FirstIndex(ws, MostCommon(ws, n)[j].0)
  {
    if n > 0 {
      var sorted := SortDesc(CounterItems(ws));
      SortedWords(ws);
      SortDescProperties(CounterItems(ws));
      var mc := MostCommon(ws, n);
      assert forall i :: 0 <= i < |mc| ==> mc[i] == sorted[i];
      forall i, j | 0 <= i < j < |mc| && mc[i].1 == mc[j].1
        ensures FirstIndex(ws, mc[i].0) < FirstIndex(ws, mc[j].0)
      {
        SortedTies(ws, i, j);
      }
    }
  }

  /** The sorted `Counter` items are words of `ws`. */
  lemma {:induction false} SortedWords(ws: seq<string>)
    ensures forall k :: 0 <= k < |SortDesc(CounterItems(ws))| ==> SortDesc(CounterItems(ws))[k].0 in ws
  {
    var items := CounterItems(ws);
    CounterItemsProperties(ws);
    SortDescMembers(items);
  }

  /** Two sorted `Counter` items with the same count keep first-seen order. */
  lemma {:induction false} SortedTies(ws: seq<string>, i: nat, j: nat)
    requires i < j < |SortDesc(CounterItems(ws))|
    requires SortDesc(CounterItems(ws))[i].1 == SortDesc(CounterItems(ws))[j].1
    ensures SortDesc(CounterItems(ws))[i].0 in ws && SortDesc(CounterItems(ws))[j].0 in ws
    ensures FirstIndex(ws, SortDesc(CounterItems(ws))[i].0) < FirstIndex(ws, SortDesc(CounterItems(ws))[j].0)
  {
    var items := CounterItems(ws);
    var sorted := SortDesc(items);
    CounterItemsProperties(ws);
    SortDescStable(items);
    var a, b := FirstIndex(items, sorted[i]), FirstIndex(items, sorted[j]);
    assert a < b;
    assert items[a] == sorted[i] && items[b] == sorted[j];
  }

  /** A word is left out of `most_common(n)` only when `n` items come before
      it, none of them with a smaller count. */
  lemma {:induction false} MostCommonTop(ws: seq<string>, n: int, w: string)
    requires w in ws && (w, Count(ws, w)) !in MostCommon(ws, n)
    ensures n <= 0 || |MostCommon(ws, n)| == n
    ensures forall p :: p in MostCommon(ws, n) ==> p.1 >= Count(ws, w)
  {
    if n > 0 {
      var items := CounterItems(ws);
      CounterItemsProperties(ws);
      SortDescProperties(items);
      var sorted := SortDesc(items);
      assert (w, Count(ws, w)) in multiset(sorted);
      TakeLeftOut(sorted, n, (w, Count(ws, w)));
    }
  }

  /** The keywords start `most_common(n)`: its items counted more than once. */
  lemma {:induction false} KeywordsPrefix(text: string, n: int)
    ensures |KeywordsOf(text, n)| <= |MostCommon(FilteredWords(text), n)|
    ensures forall i :: 0 <= i < |KeywordsOf(text, n)| ==>
              KeywordsOf(text, n)[i] == MostCommon(FilteredWords(text), n)[i].0
              && MostCommon(FilteredWords(text), n)[i].1 > 1
    ensures forall i :: |KeywordsOf(text, n)| <= i < |MostCommon(FilteredWords(text), n)| ==>
              MostCommon(FilteredWords(text), n)[i].1 <= 1
  {
    MostCommonOrder(FilteredWords(text), n);
    FrequentPrefix(MostCommon(FilteredWords(text), n));
  }

  /** Every keyword is a counted word: longer than 3, alphabetic, lower-case,
      not a stop word, and counted more than once. */
  lemma {:induction false} KeywordsAreCandidates(text: string, n: int)
    ensures forall w :: w in KeywordsOf(text, n) ==>
              IsKeywordCandidate(w) && (forall c :: c in w ==> IsLower(c))
              && w in FilteredWords(text) && Count(FilteredWords(text), w) > 1
  {
    var f := FilteredWords(text);
    var mc := MostCommon(f, n);
    var kw := KeywordsOf(text, n);
    KeywordsPrefix(text, n);
    MostCommonTallies(f, n);
    TokensLower(text);
    forall w | w in kw
      ensures IsKeywordCandidate(w) && (forall c :: c in w ==> IsLower(c)) && w in f && Count(f, w) > 1
    {
      var i :| 0 <= i < |kw| && kw[i] == w;
      assert mc[i] in mc;
      assert w in Tokens(text);
    }
  }

  /** `extract_keywords(text, n)`: at most `n` distinct words; each is longer
      than 3, alphabetic, lower-case, not a stop word, and counted more than
      once; they come by non-increasing count, ties in the order first seen;
      and they are exactly the words counted more than once among
      `most_common(n)`, which they start. */
  lemma {:induction false} KeywordsProperties(text: string, n: int)
    ensures |KeywordsOf(text, n)| <= if n > 0 then n else 0
    ensures NoDuplicates(KeywordsOf(text, n))
    ensures forall w :: w in KeywordsOf(text, n) ==>
              IsKeywordCandidate(w) && (forall c :: c in w ==> IsLower(c))
              && w in FilteredWords(text) && Count(FilteredWords(text), w) > 1
    ensures forall i, j :: 0 <= i < j < |KeywordsOf(text, n)| ==>
              Count(FilteredWords(text), KeywordsOf(text, n)[i]) >= Count(FilteredWords(text), KeywordsOf(text, n)[j])
    ensures forall i, j :: (0 <= i < j < |KeywordsOf(text, n)| &&
              Count(FilteredWords(text), KeywordsOf(text, n)[i]) == Count(FilteredWords(text), KeywordsOf(text, n)[j])) ==>
              FirstIndex(FilteredWords(text), KeywordsOf(text, n)[i]) < FirstIndex(FilteredWords(text), KeywordsOf(text, n)[j])
    ensures IsPrefix(KeywordsOf(text, n), Firsts(MostCommon(FilteredWords(text), n)))
    ensures forall p :: p in MostCommon(FilteredWords(text), n) && p.1 > 1 ==> p.0 in KeywordsOf(text, n)
  {
    KeywordsDistinct(text, n);
    KeywordsAreCandidates(text, n);
    KeywordsOrder(text, n);
    KeywordsFrequentItems(text, n);
  }

  /** At most `n` keywords, no two alike. */
  lemma {:induction false} KeywordsDistinct(text: string, n: int)
    ensures |KeywordsOf(text, n)| <= if n > 0 then n else 0
    ensures NoDuplicates(KeywordsOf(text, n))
  {
    var f := FilteredWords(text);
    MostCommonLength(f, n);
    MostCommonTallies(f, n);
    KeywordsPrefix(text, n);
  }

  /** The keywords come by non-increasing count, ties in first-seen order. */
  lemma {:induction false} KeywordsOrder(text: string, n: int)
    ensures forall w :: w in KeywordsOf(text, n) ==> w in FilteredWords(text)
    ensures forall i, j :: 0 <= i < j < |KeywordsOf(text, n)| ==>
              Count(FilteredWords(text), KeywordsOf(text, n)[i]) >= Count(FilteredWords(text), KeywordsOf(text, n)[j])
    ensures forall i, j :: (0 <= i < j < |KeywordsOf(text, n)| &&
              Count(FilteredWords(text), KeywordsOf(text, n)[i]) == Count(FilteredWords(text), KeywordsOf(text, n)[j])) ==>
              FirstIndex(FilteredWords(text), KeywordsOf(text, n)[i]) < FirstIndex(FilteredWords(text), KeywordsOf(text, n)[j])
  {
    var f := FilteredWords(text);
    var mc := MostCommon(f, n);
    var kw := KeywordsOf(text, n);
    MostCommonTallies(f, n);
    MostCommonOrder(f, n);
    KeywordsPrefix(text, n);
    assert forall i :: 0 <= i < |kw| ==> mc[i] in mc && Count(f, kw[i]) == mc[i].1;
  }

  /** The keywords start the words of `most_common(n)` and hold every one of
      its items counted more than once. */
  lemma {:induction false} KeywordsFrequentItems(text: string, n: int)
    ensures IsPrefix(KeywordsOf(text, n), Firsts(MostCommon(FilteredWords(text), n)))
    ensures forall p :: p in MostCommon(FilteredWords(text), n) && p.1 > 1 ==> p.0 in KeywordsOf(text, n)
  {
    var mc := MostCommon(FilteredWords(text), n);
    var kw := KeywordsOf(text, n);
    KeywordsPrefix(text, n);
    assert Firsts(mc)[..|kw|] == kw;
    forall p | p in mc && p.1 > 1 ensures p.0 in kw {
      var i :| 0 <= i < |mc| && mc[i] == p;
    }
  }

  /** A word counted more than once is left out only when `n` keywords, none
      counted fewer times, came before it. */
  lemma {:induction false} KeywordsComplete(text: string, n: int, w: string)
    requires w in FilteredWords(text) && Count(FilteredWords(text), w) > 1
    requires w !in KeywordsOf(text, n)
    ensures |KeywordsOf(text, n)| == if n > 0 then n else 0
    ensures forall k :: k in KeywordsOf(text, n) ==> Count(FilteredWords(text), k) >= Count(FilteredWords(text), w)
  {
    var f := FilteredWords(text);
    var mc := MostCommon(f, n);
    var kw := KeywordsOf(text, n);
    KeywordsPrefix(text, n);
    if n > 0 {
      forall i | 0 <= i < |mc| ensures mc[i] != (w, Count(f, w)) {
        if i < |kw| {
          assert kw[i] in kw;
        }
      }
      MostCommonTop(f, n, w);
      KeywordsWhenAllFrequent(text, n);
      MostCommonTallies(f, n);
      forall k | k in kw ensures Count(f, k) >= Count(f, w) {
        var i :| 0 <= i < |kw| && kw[i] == k;
        assert mc[i] in mc;
      }
    }
  }

  /** When every item of `most_common(n)` is counted more than once, the
      keywords are all of its words. */
  lemma {:induction false} KeywordsWhenAllFrequent(text: string, n: int)
    requires forall p :: p in MostCommon(FilteredWords(text), n) ==> p.1 > 1
    ensures |KeywordsOf(text, n)| == |MostCommon(FilteredWords(text), n)|
  {
    FrequentAll(MostCommon(FilteredWords(text), n));
  }

  lemma {:induction false} FrequentAll(ps: seq<(string, nat)>)
    requires forall p :: p in ps ==> p.1 > 1
    ensures Frequent(ps) == Firsts(ps)
  {
    if ps != [] {
      assert ps[0] in ps;
      assert forall p :: p in ps[1..] ==> p in ps;
      FrequentAll(ps[1..]);
    }
  }
}
