/** `MetadataExtractor.extract_dates`: `re.findall` of five date shapes (with
    re.IGNORECASE) concatenated in pattern order, de-duplicated keeping first
    occurrences, and cut to five. */
module Dates {
  import opened Wrappers
  import opened Text
  import opened Seqs

  datatype DatePattern =
    | Iso           // \b\d{4}-\d{2}-\d{2}\b
    | Slashed       // \b\d{2}/\d{2}/\d{4}\b
    | Dashed        // \b\d{2}-\d{2}-\d{4}\b
    | DayMonthYear  // \b\d{1,2}\s+(January|...|December)\s+\d{4}\b
    | MonthDayYear  // \b(January|...|December)\s+\d{1,2},?\s+\d{4}\b

  const DatePatterns: seq<DatePattern> := [Iso, Slashed, Dashed, DayMonthYear, MonthDayYear]

  const MaxDates: nat := 5

  const Months: seq<string> := ["January", "February", "March", "April", "May", "June", "July",
                                "August", "September", "October", "November", "December"]

  /** One of the twelve month names, in any case. */
  predicate IsMonthName(s: string) {
    exists k :: 0 <= k < |Months| && SameIgnoringCase(s, Months[k])
  }

  /** A match: what `re.findall` reports for it, and where the whole match ends. */
  datatype Found = Found(text: string, end: nat)

  /** `\b` at position `i`: a word character on exactly one side. */
  predicate IsBoundary(t: string, i: nat)
    requires i <= |t|
  {
    (i > 0 && IsWordChar(t[i - 1])) != (i < |t| && IsWordChar(t[i]))
  }

  /** `\d{n}` at position `i`. */
  predicate DigitsAt(t: string, i: nat, n: nat) {
    i + n <= |t| && forall k :: i <= k < i + n ==> IsDigit(t[k])
  }

  /** `\d{m}(sep)\d{n}(sep)\d{o}\b` for the fixed-width numeric shapes. */
  function NumericAt(t: string, s: nat, m: nat, sep: char, n: nat, o: nat): (f: Option<Found>)
    requires s <= |t|
    ensures f.Some? ==> s <= f.value.end <= |t| && f.value.text == t[s..f.value.end] && |f.value.text| == m + n + o + 2
  {
    var e := s + m + n + o + 2;
    if IsBoundary(t, s) && DigitsAt(t, s, m) && s + m < |t| && t[s + m] == sep
       && DigitsAt(t, s + m + 1, n) && s + m + n + 1 < |t| && t[s + m + n + 1] == sep
       && DigitsAt(t, s + m + n + 2, o) && IsBoundary(t, e)
    then Some(Found(t[s..e], e))
    else None
  }

  /** The length of the month name that the alternation matches at `i`, ignoring case. */
  function MonthAt(t: string, i: nat, months: seq<string>): (n: Option<nat>)
    requires forall m :: m in months ==> m != []
    ensures n.Some? ==> n.value > 0 && i + n.value <= |t|
    ensures n.Some? ==> exists k :: 0 <= k < |months| && n.value == |months[k]| && WordAt(t, i, months[k])
    ensures n.None? ==> forall k :: 0 <= k < |months| ==> !WordAt(t, i, months[k])
  {
    if months == [] then None
    else if WordAt(t, i, months[0]) then assert months[0] in months; Some(|months[0]|)
    else
      assert forall m :: m in months[1..] ==> m in months;
      var n := MonthAt(t, i, months[1..]);
      assert forall k :: 1 <= k < |months| ==> months[k] == months[1..][k - 1];
      n
  }

  /** The text a month match reports: a month name, in the text, where the match began. */
  lemma MonthSlice(t: string, i: nat, n: nat)
    requires MonthAt(t, i, Months) == Some(n)
    ensures i + n <= |t| && t[i..i + n] != [] && IsMonthName(t[i..i + n])
    ensures IsInfix(t[i..i + n], t)
  {
    MonthSliceOf(t, i, n, Months);
  }

  lemma MonthSliceOf(t: string, i: nat, n: nat, months: seq<string>)
    requires forall m :: m in months ==> m != []
    requires MonthAt(t, i, months) == Some(n)
    ensures i + n <= |t| && t[i..i + n] != []
    ensures exists k :: 0 <= k < |months| && SameIgnoringCase(t[i..i + n], months[k])
    ensures IsInfix(t[i..i + n], t)
  {
    var k :| 0 <= k < |months| && n == |months[k]| && WordAt(t, i, months[k]);
    assert SameIgnoringCase(t[i..i + n], months[k]);
    SliceIsInfix(t, i, i + n);
  }

  /** `\d{1,2}` at `i`: its end, two digits when there are two. */
  function DayEnd(t: string, i: nat): (e: Option<nat>)
    ensures e.Some? ==> i < e.value <= |t| && e.value <= i + 2
    ensures e.Some? ==> forall k :: i <= k < e.value ==> IsDigit(t[k])
    ensures e.Some? && e.value == i + 1 ==> i + 1 == |t| || !IsDigit(t[i + 1])
    ensures e.None? <==> !(i < |t| && IsDigit(t[i]))
  {
    if i < |t| && IsDigit(t[i]) then
      if i + 1 < |t| && IsDigit(t[i + 1]) then Some(i + 2) else Some(i + 1)
    else None
  }

  /** `\s+\d{4}\b` from `i`: where the year ends. */
  function YearEnd(t: string, i: nat): (e: Option<nat>)
    requires i <= |t|
    ensures e.Some? ==> i + 5 <= e.value <= |t|
    ensures e.Some? ==> DigitsAt(t, e.value - 4, 4) && IsBoundary(t, e.value)
    ensures e.Some? ==> forall k :: i <= k < e.value - 4 ==> IsSpace(t[k])
  {
    var y := SkipSpace(t, i);
    if y > i && DigitsAt(t, y, 4) && IsBoundary(t, y + 4) then Some(y + 4) else None
  }

  /** `\b\d{1,2}\s+(January|...|December)\s+\d{4}\b` from `s`; reports the month. */
  function DayMonthYearAt(t: string, s: nat): (f: Option<Found>)
    requires s <= |t|
    ensures f.Some? ==> s < f.value.end <= |t| && f.value.text != [] && IsInfix(f.value.text, t)
    ensures f.Some? ==> IsBoundary(t, s) && IsMonthName(f.value.text)
  {
    if !IsBoundary(t, s) then None
    else match DayEnd(t, s)
      case None => None
      case Some(d) =>
        var m := SkipSpace(t, d);
        if m == d then None
        else match MonthAt(t, m, Months)
          case None => None
          case Some(n) =>
            match YearEnd(t, m + n)
            case None => None
            case Some(e) => MonthSlice(t, m, n); Some(Found(t[m..m + n], e))
  }

  /** `\b(January|...|December)\s+\d{1,2},?\s+\d{4}\b` from `s`; reports the month. */
  function MonthDayYearAt(t: string, s: nat): (f: Option<Found>)
    requires s <= |t|
    ensures f.Some? ==> s < f.value.end <= |t| && f.value.text != [] && IsInfix(f.value.text, t)
    ensures f.Some? ==> IsBoundary(t, s) && IsMonthName(f.value.text)
  {
    if !IsBoundary(t, s) then None
    else match MonthAt(t, s, Months)
      case None => None
      case Some(n) =>
        var d := SkipSpace(t, s + n);
        if d == s + n then None
        else match DayEnd(t, d)
          case None => None
          case Some(de) =>
            var c := if de < |t| && t[de] == ',' then de + 1 else de;
            match YearEnd(t, c)
            case None => None
            case Some(e) => MonthSlice(t, s, n); Some(Found(t[s..s + n], e))
  }

  /** The match of pattern `p` starting at `s`, if any. Patterns DayMonthYear
      and MonthDayYear have a capture group, so `re.findall` reports only the
      month name as written in the text. */
  function MatchAt(p: DatePattern, t: string, s: nat): (f: Option<Found>)
    requires s <= |t|
    ensures f.Some? ==> s < f.value.end <= |t| && f.value.text != [] && IsInfix(f.value.text, t)
    ensures f.Some? && (p.DayMonthYear? || p.MonthDayYear?) ==> IsMonthName(f.value.text)
    ensures f.Some? && !(p.DayMonthYear? || p.MonthDayYear?) ==> f.value.text == t[s..f.value.end]
  {
    match p
    case Iso => NumericAt(t, s, 4, '-', 2, 2)
    case Slashed => NumericAt(t, s, 2, '/', 2, 4)
    case Dashed => NumericAt(t, s, 2, '-', 2, 4)
    case DayMonthYear => DayMonthYearAt(t, s)
    case MonthDayYear => MonthDayYearAt(t, s)
  }

  /** `re.findall(p, t[pos:])`: scan left to right, resuming after each match. */
  function FindAll(p: DatePattern, t: string, pos: nat): (r: seq<string>)
    requires pos <= |t|
    ensures forall d :: d in r ==> d != [] && IsInfix(d, t)
    decreases |t| - pos
  {
    if pos == |t| then []
    else match MatchAt(p, t, pos)
      case Some(f) => [f.text] + FindAll(p, t, f.end)
      case None => FindAll(p, t, pos + 1)
  }

  /** `re.findall` finds nothing from `pos` on exactly when the pattern matches
      at no position from `pos` on. */
  lemma {:induction false} FindAllNone(p: DatePattern, t: string, pos: nat)
    requires pos <= |t|
    ensures FindAll(p, t, pos) == [] <==> forall j :: pos <= j < |t| ==> MatchAt(p, t, j).None?
    decreases |t| - pos
  {
    if pos < |t| {
      FindAllNone(p, t, pos + 1);
      match MatchAt(p, t, pos)
      case Some(f) =>
        assert FindAll(p, t, pos) == [f.text] + FindAll(p, t, f.end);
      case None =>
        assert FindAll(p, t, pos) == FindAll(p, t, pos + 1);
    }
  }

  /** The scan reports the match at the leftmost matching position first and
      resumes where that match ends. */
  lemma {:induction false} FindAllLeftmost(p: DatePattern, t: string, pos: nat, j: nat)
    requires pos <= j < |t| && MatchAt(p, t, j).Some?
    requires forall k :: pos <= k < j ==> MatchAt(p, t, k).None?
    ensures FindAll(p, t, pos) ==
              [MatchAt(p, t, j).value.text] + FindAll(p, t, MatchAt(p, t, j).value.end)
    decreases j - pos
  {
    if pos < j {
      FindAllLeftmost(p, t, pos + 1, j);
    }
  }

  /** `found_dates` after the first `k` patterns have been applied. */
  function FoundBy(t: string, k: nat): (r: seq<string>)
    requires k <= |DatePatterns|
    ensures forall d :: d in r ==> d != [] && IsInfix(d, t)
  {
    if k == 0 then [] else FoundBy(t, k - 1) + FindAll(DatePatterns[k - 1], t, 0)
  }

  /** All matches of all five patterns, in pattern order. */
  function AllFound(t: string): (r: seq<string>)
    ensures forall d :: d in r ==> d != [] && IsInfix(d, t)
  {
    FoundBy(t, |DatePatterns|)
  }

  /** `list(dict.fromkeys(found_dates))[:5]`. */
  function DatesOf(t: string): (r: seq<string>)
    ensures |r| <= MaxDates
  {
    Take(Dedup(AllFound(t)), MaxDates)
  }

  /** `extract_dates(text)`: at most five dates, no two alike, each one found
      by a pattern, in order of first occurrence among all the matches. */
  method ExtractDates(text: string) returns (dates: seq<string>)
    ensures dates == DatesOf(text)
    ensures |dates| <= MaxDates && NoDuplicates(dates)
    ensures forall d :: d in dates ==> d in AllFound(text) && IsInfix(d, text)
  {
    var found: seq<string> := [];
    for k := 0 to |DatePatterns|
      invariant found == FoundBy(text, k)
    {
      var matches := FindAll(DatePatterns[k], text, 0);
      found := found + matches;
    }
    dates := Take(Dedup(found), MaxDates);
    DatesProperties(text);
  }

  /** The dates are distinct, at most five, all found in the text, and are the
      first five distinct matches in the order they first occur. */
  lemma DatesProperties(t: string)
    ensures |DatesOf(t)| <= MaxDates && NoDuplicates(DatesOf(t))
    ensures forall d :: d in DatesOf(t) ==> d in AllFound(t) && IsInfix(d, t)
    ensures IsPrefix(DatesOf(t), Dedup(AllFound(t)))
    ensures |Dedup(AllFound(t))| <= MaxDates ==> DatesOf(t) == Dedup(AllFound(t))
    ensures forall i, j :: 0 <= i < j < |DatesOf(t)| ==>
              FirstIndex(AllFound(t), DatesOf(t)[i]) < FirstIndex(AllFound(t), DatesOf(t)[j])
  {
    var all := AllFound(t);
    DedupElements(all);
    DedupOrder(all);
    var r := DatesOf(t);
    assert forall i :: 0 <= i < |r| ==> r[i] == Dedup(all)[i];
  }

  /** A found date is only ever left out because five distinct ones came before it. */
  lemma DatesComplete(t: string, d: string)
    requires d in AllFound(t) && d !in DatesOf(t)
    ensures |DatesOf(t)| == MaxDates
    ensures forall e :: e in DatesOf(t) ==> e in AllFound(t)
    ensures forall e :: e in DatesOf(t) ==> FirstIndex(AllFound(t), e) < FirstIndex(AllFound(t), d)
  {
    var all := AllFound(t);
    DedupElements(all);
    DedupOrder(all);
    var u := Dedup(all);
    var k :| 0 <= k < |u| && u[k] == d;
    assert k >= MaxDates;
    forall e | e in DatesOf(t) ensures FirstIndex(all, e) < FirstIndex(all, d) {
      var i :| 0 <= i < |DatesOf(t)| && DatesOf(t)[i] == e;
      assert u[i] == e;
    }
  }
}
