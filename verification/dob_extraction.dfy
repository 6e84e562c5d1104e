/** `OCRService.extract_date_of_birth` (main.py:86-107): four regular
    expressions tried in priority order on the lower-cased text; the first
    one that matches anywhere yields its captured `dd/mm/yyyy` token, and
    when none matches the result is `None`. */
module DobExtraction {
  import opened Wrappers
  import opened Chars
  import opened Calendar

  /** The patterns of main.py:95-100, in order:
        NascLabel             `nasc\w*[\s:]+(\d{2}/\d{2}/\d{4})`
        DataDeNascimentoLabel `data\s+de\s+nascimento[\s:]+(\d{2}/\d{2}/\d{4})`
        DtNascLabel           `dt\s*nasc[\s:]+(\d{2}/\d{2}/\d{4})`
        AnyDate               `(\d{2}/\d{2}/\d{4})` */
  datatype Pattern = NascLabel | DataDeNascimentoLabel | DtNascLabel | AnyDate

  const Priority: seq<Pattern> := [NascLabel, DataDeNascimentoLabel, DtNascLabel, AnyDate]

  /** The repeated classes of the patterns: `\w`, `\s` and `[\s:]`. */
  datatype CharClass = Word | Space | SpaceOrColon

  predicate InClass(c: char, k: CharClass)
  {
    match k
    case Word => IsWordChar(c)
    case Space => IsSpace(c)
    case SpaceOrColon => IsSpace(c) || c == ':'
  }

  predicate AllIn(t: string, lo: int, hi: int, k: CharClass)
    requires 0 <= lo <= hi <= |t|
  {
    forall x :: lo <= x < hi ==> InClass(t[x], k)
  }

  /** The end of the longest run of class `k` that starts at `i`. */
  function RunEnd(t: string, i: nat, k: CharClass): (j: nat)
    requires i <= |t|
    ensures i <= j <= |t| && AllIn(t, i, j, k)
    ensures j == |t| || !InClass(t[j], k)
    decreases |t| - i
  {
    if i == |t| || !InClass(t[i], k) then i else RunEnd(t, i + 1, k)
  }

  /** A run of class `k` that ends before a character outside `k` is the
      longest run. */
  lemma {:induction false} RunEndAt(t: string, i: nat, k: CharClass, j: int)
    requires i <= j <= |t| && AllIn(t, i, j, k)
    requires j == |t| || !InClass(t[j], k)
    ensures RunEnd(t, i, k) == j
    decreases j - i
  {
    if i < j {
      assert InClass(t[i], k);
      RunEndAt(t, i + 1, k, j);
    }
  }

  /** A `\d{2}/\d{2}/\d{4}` token starts at `i`. */
  predicate DateAt(t: string, i: int)
  {
    0 <= i && i + 10 <= |t| && IsDateToken(t[i..i + 10])
  }

  /** The regular expression's own reading of "pattern `p` matches at `i`
      with group 1 starting at `c`": some choice of run lengths, as a
      backtracking matcher would try them, fits the text. */
  ghost predicate RegexMatch(p: Pattern, t: string, i: int, c: int)
  {
    && 0 <= i <= c
    && DateAt(t, c)
    && match p
       case NascLabel => NascRegex(t, i, c)
       case DataDeNascimentoLabel => DataDeNascimentoRegex(t, i, c)
       case DtNascLabel => DtNascRegex(t, i, c)
       case AnyDate => c == i
  }

  /** `nasc\w*[\s:]+` from `i`, ending where the date starts at `c`. */
  ghost predicate NascRegex(t: string, i: int, c: int)
    requires 0 <= i <= c <= |t|
  {
    && OccursAt("nasc", t, i)
    && exists a :: i + 4 <= a < c && AllIn(t, i + 4, a, Word) && AllIn(t, a, c, SpaceOrColon)
  }

  /** `data\s+de\s+nascimento[\s:]+` from `i`, ending at `c`. */
  ghost predicate DataDeNascimentoRegex(t: string, i: int, c: int)
    requires 0 <= i <= c <= |t|
  {
    && OccursAt("data", t, i)
    && exists a, b ::
         && i + 4 < a && a + 2 < b && b + 10 < c
         && AllIn(t, i + 4, a, Space) && OccursAt("de", t, a)
         && AllIn(t, a + 2, b, Space) && OccursAt("nascimento", t, b)
         && AllIn(t, b + 10, c, SpaceOrColon)
  }

  /** `dt\s*nasc[\s:]+` from `i`, ending at `c`. */
  ghost predicate DtNascRegex(t: string, i: int, c: int)
    requires 0 <= i <= c <= |t|
  {
    && OccursAt("dt", t, i)
    && exists a ::
         && i + 2 <= a && a + 4 < c
         && AllIn(t, i + 2, a, Space) && OccursAt("nasc", t, a)
         && AllIn(t, a + 4, c, SpaceOrColon)
  }

  /* The greedy matchers. Every repetition is taken at its longest.
     Backtracking cannot help: each run of `\w`, `\s` or `[\s:]` must be
     followed by a character outside its class (a separator, the first
     letter of the next word of the label, or the first digit of the
     date), so only the longest run can be followed by the rest of the
     pattern. */

  function NascCapture(t: string, i: nat): (c: Option<nat>)
    requires i <= |t|
    ensures c.Some? ==> i <= c.value && DateAt(t, c.value)
  {
    if !OccursAt("nasc", t, i) then None
    else
      var a := RunEnd(t, i + 4, Word);
      var b := RunEnd(t, a, SpaceOrColon);
      if a < b && DateAt(t, b) then Some(b) else None
  }

  function DataDeNascimentoCapture(t: string, i: nat): (c: Option<nat>)
    requires i <= |t|
    ensures c.Some? ==> i <= c.value && DateAt(t, c.value)
  {
    if !OccursAt("data", t, i) then None
    else
      var a := RunEnd(t, i + 4, Space);
      if a == i + 4 || !OccursAt("de", t, a) then None
      else
        var b := RunEnd(t, a + 2, Space);
        if b == a + 2 || !OccursAt("nascimento", t, b) then None
        else
          var c := RunEnd(t, b + 10, SpaceOrColon);
          if b + 10 < c && DateAt(t, c) then Some(c) else None
  }

  function DtNascCapture(t: string, i: nat): (c: Option<nat>)
    requires i <= |t|
    ensures c.Some? ==> i <= c.value && DateAt(t, c.value)
  {
    if !OccursAt("dt", t, i) then None
    else
      var a := RunEnd(t, i + 2, Space);
      if !OccursAt("nasc", t, a) then None
      else
        var b := RunEnd(t, a + 4, SpaceOrColon);
        if a + 4 < b && DateAt(t, b) then Some(b) else None
  }

  /** Pattern `p` anchored at `i`: where group 1 starts, if it matches. */
  function MatchAt(p: Pattern, t: string, i: nat): (c: Option<nat>)
    requires i <= |t|
    ensures c.Some? ==> i <= c.value && DateAt(t, c.value)
  {
    match p
    case NascLabel => NascCapture(t, i)
    case DataDeNascimentoLabel => DataDeNascimentoCapture(t, i)
    case DtNascLabel => DtNascCapture(t, i)
    case AnyDate => if DateAt(t, i) then Some(i) else None
  }

  /** A date token starts with a digit, which no separator class holds. */
  lemma DateStartsWithDigit(t: string, c: int)
    requires DateAt(t, c)
    ensures !InClass(t[c], SpaceOrColon) && !InClass(t[c], Space)
  {
    assert t[c..c + 10][0] == t[c];
  }

  /** A literal that starts with a letter stops any run of separators. */
  lemma LiteralStopsSpaces(t: string, a: int, lit: string)
    requires OccursAt(lit, t, a) && |lit| > 0 && 'a' <= lit[0] <= 'z'
    ensures !InClass(t[a], Space)
  {
    assert t[a..a + |lit|][0] == t[a];
  }

  lemma NascMatch(t: string, i: nat, c: int)
    requires i <= |t|
    ensures NascCapture(t, i) == Some(c) <==> 0 <= i <= c && DateAt(t, c) && NascRegex(t, i, c)
  {
    if NascCapture(t, i) == Some(c) {
      var a := RunEnd(t, i + 4, Word);
      assert i + 4 <= a < c && AllIn(t, i + 4, a, Word) && AllIn(t, a, c, SpaceOrColon);
    }
    if 0 <= i <= c && DateAt(t, c) && NascRegex(t, i, c) {
      var a :| i + 4 <= a < c && AllIn(t, i + 4, a, Word) && AllIn(t, a, c, SpaceOrColon);
      assert InClass(t[a], SpaceOrColon);
      RunEndAt(t, i + 4, Word, a);
      DateStartsWithDigit(t, c);
      RunEndAt(t, a, SpaceOrColon, c);
    }
  }

  lemma DataDeNascimentoGreedyIsRegex(t: string, i: nat, c: int)
    requires i <= |t| && DataDeNascimentoCapture(t, i) == Some(c)
    ensures DataDeNascimentoRegex(t, i, c)
  {
    var a := RunEnd(t, i + 4, Space);
    var b := RunEnd(t, a + 2, Space);
    assert i + 4 < a && a + 2 < b && b + 10 < c
       && AllIn(t, i + 4, a, Space) && OccursAt("de", t, a)
       && AllIn(t, a + 2, b, Space) && OccursAt("nascimento", t, b)
       && AllIn(t, b + 10, c, SpaceOrColon);
  }

  /** The greedy matcher's verdict once its three runs are known. */
  lemma DataDeNascimentoFromRuns(t: string, i: nat, a: int, b: int, c: int)
    requires i + 4 < a && a + 2 < b && b + 10 < c && DateAt(t, c)
    requires OccursAt("data", t, i) && OccursAt("de", t, a) && OccursAt("nascimento", t, b)
    requires RunEnd(t, i + 4, Space) == a
    requires RunEnd(t, a + 2, Space) == b
    requires RunEnd(t, b + 10, SpaceOrColon) == c
    ensures DataDeNascimentoCapture(t, i) == Some(c)
  {
  }

  /** Runs ending where the next literal, or the date, begins are the
      greedy matcher's runs. */
  lemma DataDeNascimentoRunsAreGreedy(t: string, i: nat, a: int, b: int, c: int)
    requires i + 4 < a && a + 2 < b && b + 10 < c && DateAt(t, c)
    requires OccursAt("data", t, i)
    requires AllIn(t, i + 4, a, Space) && OccursAt("de", t, a)
    requires AllIn(t, a + 2, b, Space) && OccursAt("nascimento", t, b)
    requires AllIn(t, b + 10, c, SpaceOrColon)
    ensures DataDeNascimentoCapture(t, i) == Some(c)
  {
    LiteralStopsSpaces(t, a, "de");
    RunEndAt(t, i + 4, Space, a);
    LiteralStopsSpaces(t, b, "nascimento");
    RunEndAt(t, a + 2, Space, b);
    DateStartsWithDigit(t, c);
    RunEndAt(t, b + 10, SpaceOrColon, c);
    DataDeNascimentoFromRuns(t, i, a, b, c);
  }

  lemma DataDeNascimentoRegexIsGreedy(t: string, i: nat, c: int)
    requires 0 <= i <= c && DateAt(t, c) && DataDeNascimentoRegex(t, i, c)
    ensures DataDeNascimentoCapture(t, i) == Some(c)
  {
    var a, b :|
      && i + 4 < a && a + 2 < b && b + 10 < c
      && AllIn(t, i + 4, a, Space) && OccursAt("de", t, a)
      && AllIn(t, a + 2, b, Space) && OccursAt("nascimento", t, b)
      && AllIn(t, b + 10, c, SpaceOrColon);
    DataDeNascimentoRunsAreGreedy(t, i, a, b, c);
  }

  lemma DataDeNascimentoMatch(t: string, i: nat, c: int)
    requires i <= |t|
    ensures DataDeNascimentoCapture(t, i) == Some(c)
        <==> 0 <= i <= c && DateAt(t, c) && DataDeNascimentoRegex(t, i, c)
  {
    if DataDeNascimentoCapture(t, i) == Some(c) {
      DataDeNascimentoGreedyIsRegex(t, i, c);
    }
    if 0 <= i <= c && DateAt(t, c) && DataDeNascimentoRegex(t, i, c) {
      DataDeNascimentoRegexIsGreedy(t, i, c);
    }
  }

  lemma DtNascMatch(t: string, i: nat, c: int)
    requires i <= |t|
    ensures DtNascCapture(t, i) == Some(c) <==> 0 <= i <= c && DateAt(t, c) && DtNascRegex(t, i, c)
  {
    if DtNascCapture(t, i) == Some(c) {
      var a := RunEnd(t, i + 2, Space);
      assert i + 2 <= a && a + 4 < c
         && AllIn(t, i + 2, a, Space) && OccursAt("nasc", t, a)
         && AllIn(t, a + 4, c, SpaceOrColon);
    }
    if 0 <= i <= c && DateAt(t, c) && DtNascRegex(t, i, c) {
      var a :|
        && i + 2 <= a && a + 4 < c
        && AllIn(t, i + 2, a, Space) && OccursAt("nasc", t, a)
        && AllIn(t, a + 4, c, SpaceOrColon);
      LiteralStopsSpaces(t, a, "nasc");
      RunEndAt(t, i + 2, Space, a);
      DateStartsWithDigit(t, c);
      RunEndAt(t, a + 4, SpaceOrColon, c);
    }
  }

  /** The greedy matcher finds exactly the regular expression's matches,
      and the capture position of a match at `i` is unique. */
  lemma MatchAtIsRegexMatch(p: Pattern, t: string, i: nat, c: int)
    requires i <= |t|
    ensures MatchAt(p, t, i) == Some(c) <==> RegexMatch(p, t, i, c)
  {
    match p
    case NascLabel => NascMatch(t, i, c);
    case DataDeNascimentoLabel => DataDeNascimentoMatch(t, i, c);
    case DtNascLabel => DtNascMatch(t, i, c);
    case AnyDate =>
  }

  /** `re.search` from position `i` on: the leftmost start at which the
      pattern matches. */
  function SearchFrom(p: Pattern, t: string, i: nat): (r: Option<nat>)
    requires i <= |t|
    ensures r.Some? ==> i <= r.value <= |t| && MatchAt(p, t, r.value).Some?
    ensures forall j :: i <= j <= |t| && (r.None? || j < r.value) ==> MatchAt(p, t, j).None?
    decreases |t| - i
  {
    if MatchAt(p, t, i).Some? then Some(i)
    else if i == |t| then None
    else SearchFrom(p, t, i + 1)
  }

  /** `re.search(p, t).group(1)`, or `None` when there is no match. */
  function SearchCapture(p: Pattern, t: string): (r: Option<string>)
    ensures r.Some? ==> exists c :: DateAt(t, c) && r.value == t[c..c + 10]
  {
    match SearchFrom(p, t, 0)
    case None => None
    case Some(i) =>
      var c := MatchAt(p, t, i).value;
      Some(t[c..c + 10])
  }

  /** A search that fails has passed every start without a match. */
  lemma SearchNoneIsNoMatch(p: Pattern, t: string)
    requires SearchFrom(p, t, 0).None?
    ensures forall i, c :: !RegexMatch(p, t, i, c)
  {
    forall i, c | RegexMatch(p, t, i, c)
      ensures false
    {
      MatchAtIsRegexMatch(p, t, i, c);
    }
  }

  /** `c` is group 1 of the match that starts leftmost. */
  ghost predicate LeftmostMatch(p: Pattern, t: string, i: int, c: int)
  {
    && RegexMatch(p, t, i, c)
    && forall j, c' :: 0 <= j < i ==> !RegexMatch(p, t, j, c')
  }

  /** A search that stops at `i` stops at the leftmost match. */
  lemma SearchSomeIsLeftmost(p: Pattern, t: string, i: nat)
    requires SearchFrom(p, t, 0) == Some(i)
    ensures i <= |t| && MatchAt(p, t, i).Some?
    ensures LeftmostMatch(p, t, i, MatchAt(p, t, i).value)
  {
    MatchAtIsRegexMatch(p, t, i, MatchAt(p, t, i).value);
    forall j, c' | 0 <= j < i && RegexMatch(p, t, j, c')
      ensures false
    {
      MatchAtIsRegexMatch(p, t, j, c');
    }
  }

  /** The search gives `None` exactly when the pattern matches nowhere. */
  lemma SearchCaptureNoneIffNoMatch(p: Pattern, t: string)
    ensures SearchCapture(p, t).None? <==> forall i, c :: !RegexMatch(p, t, i, c)
  {
    match SearchFrom(p, t, 0)
    case None =>
      SearchNoneIsNoMatch(p, t);
    case Some(i) =>
      SearchSomeIsLeftmost(p, t, i);
      assert RegexMatch(p, t, i, MatchAt(p, t, i).value);
  }

  /** The leftmost match, read through the greedy matcher. */
  lemma LeftmostMatchAt(p: Pattern, t: string, i: nat, c: int)
    requires LeftmostMatch(p, t, i, c)
    ensures i <= |t| && MatchAt(p, t, i) == Some(c)
    ensures forall j :: 0 <= j < i ==> MatchAt(p, t, j).None?
  {
    MatchAtIsRegexMatch(p, t, i, c);
    forall j | 0 <= j < i && MatchAt(p, t, j).Some?
      ensures false
    {
      MatchAtIsRegexMatch(p, t, j, MatchAt(p, t, j).value);
    }
  }

  /** A search stops at the first start where the greedy matcher matches. */
  lemma SearchStopsAtFirstMatch(p: Pattern, t: string, i: nat, c: int)
    requires i <= |t| && MatchAt(p, t, i) == Some(c)
    requires forall j :: 0 <= j < i ==> MatchAt(p, t, j).None?
    ensures SearchFrom(p, t, 0) == Some(i)
    ensures SearchCapture(p, t) == Some(t[c..c + 10])
  {
  }

  /** The search captures group 1 of the leftmost match, whichever that
      is. */
  lemma LeftmostMatchIsCaptured(p: Pattern, t: string, i: nat, c: int)
    requires LeftmostMatch(p, t, i, c)
    ensures SearchFrom(p, t, 0) == Some(i)
    ensures SearchCapture(p, t) == Some(t[c..c + 10])
  {
    LeftmostMatchAt(p, t, i, c);
    SearchStopsAtFirstMatch(p, t, i, c);
  }

  /** `for pattern in patterns: ... return match.group(1)`; `None` after
      the loop. */
  function FirstCapture(ps: seq<Pattern>, t: string): (r: Option<string>)
    ensures r.None? <==> forall k :: 0 <= k < |ps| ==> SearchCapture(ps[k], t).None?
  {
    if ps == [] then None
    else
      match SearchCapture(ps[0], t)
      case Some(s) => Some(s)
      case None =>
        var r := FirstCapture(ps[1..], t);
        assert forall k :: 1 <= k < |ps| ==> ps[k] == ps[1..][k - 1];
        r
  }

  /** A result of the loop is the capture of some pattern `k` of the list,
      and every pattern before `k` found nothing. */
  lemma {:induction false} FirstCaptureIsFirstMatch(ps: seq<Pattern>, t: string)
    ensures FirstCapture(ps, t).Some? ==>
      exists k ::
        && 0 <= k < |ps|
        && SearchCapture(ps[k], t) == FirstCapture(ps, t)
        && forall k' :: 0 <= k' < k ==> SearchCapture(ps[k'], t).None?
  {
    if ps != [] && SearchCapture(ps[0], t).None? {
      FirstCaptureIsFirstMatch(ps[1..], t);
      if FirstCapture(ps[1..], t).Some? {
        var k :|
          && 0 <= k < |ps[1..]|
          && SearchCapture(ps[1..][k], t) == FirstCapture(ps[1..], t)
          && forall k' :: 0 <= k' < k ==> SearchCapture(ps[1..][k'], t).None?;
        assert SearchCapture(ps[k + 1], t) == FirstCapture(ps, t);
        forall k' | 0 <= k' < k + 1
          ensures SearchCapture(ps[k'], t).None?
        {
          if k' > 0 {
            assert ps[k'] == ps[1..][k' - 1];
          }
        }
      }
    }
  }

  /** The shape of a token is kept by lowering, since it has no letters. */
  lemma LowerKeepsDateAt(text: string, i: int)
    ensures DateAt(Lower(text), i) <==> DateAt(text, i)
    ensures DateAt(text, i) ==> Lower(text)[i..i + 10] == text[i..i + 10]
  {
    if DateAt(text, i) || DateAt(Lower(text), i) {
      forall k | i <= k < i + 10
        ensures Lower(text)[k] == text[k]
      {
        assert text[i..i + 10][k - i] == text[k];
        assert Lower(text)[i..i + 10][k - i] == Lower(text)[k];
      }
      assert Lower(text)[i..i + 10] == text[i..i + 10];
    }
  }

  /** The loop over `Priority` written out: the first pattern that matches
      decides. */
  lemma FirstCaptureOfPriority(t: string)
    ensures FirstCapture(Priority, t) ==
      if SearchCapture(NascLabel, t).Some? then SearchCapture(NascLabel, t)
      else if SearchCapture(DataDeNascimentoLabel, t).Some? then SearchCapture(DataDeNascimentoLabel, t)
      else if SearchCapture(DtNascLabel, t).Some? then SearchCapture(DtNascLabel, t)
      else SearchCapture(AnyDate, t)
  {
    var p0 := Priority;
    var p1 := [DataDeNascimentoLabel, DtNascLabel, AnyDate];
    var p2 := [DtNascLabel, AnyDate];
    var p3 := [AnyDate];
    assert p0[1..] == p1 && p1[1..] == p2 && p2[1..] == p3 && p3[1..] == [];
    assert FirstCapture(p3, t) == SearchCapture(AnyDate, t);
    assert FirstCapture(p2, t) == if SearchCapture(DtNascLabel, t).Some? then SearchCapture(DtNascLabel, t) else FirstCapture(p3, t);
    assert FirstCapture(p1, t) ==
      if SearchCapture(DataDeNascimentoLabel, t).Some? then SearchCapture(DataDeNascimentoLabel, t) else FirstCapture(p2, t);
    assert FirstCapture(p0, t) == if SearchCapture(NascLabel, t).Some? then SearchCapture(NascLabel, t) else FirstCapture(p1, t);
  }

  /** `nascimento` is `nasc` followed by six word characters. */
  lemma NascimentoIsNascWord(t: string, b: int)
    requires OccursAt("nascimento", t, b)
    ensures OccursAt("nasc", t, b) && AllIn(t, b + 4, b + 10, Word)
  {
    assert t[b..b + 4] == t[b..b + 10][..4];
    forall x | b + 4 <= x < b + 10
      ensures InClass(t[x], Word)
    {
      assert t[x] == t[b..b + 10][x - b];
    }
  }

  /** A `data de nascimento` match holds a `nasc\w*[\s:]+` match at the
      word `nascimento`, with the same date. */
  lemma DataDeNascimentoHasNasc(t: string, i: int, c: int)
    requires RegexMatch(DataDeNascimentoLabel, t, i, c)
    ensures exists j :: i < j && RegexMatch(NascLabel, t, j, c)
  {
    var a, b :|
      && i + 4 < a && a + 2 < b && b + 10 < c
      && AllIn(t, i + 4, a, Space) && OccursAt("de", t, a)
      && AllIn(t, a + 2, b, Space) && OccursAt("nascimento", t, b)
      && AllIn(t, b + 10, c, SpaceOrColon);
    NascimentoIsNascWord(t, b);
    assert NascRegex(t, b, c);
    assert RegexMatch(NascLabel, t, b, c);
  }

  /** A `dt nasc` match holds a `nasc\w*[\s:]+` match with the same date. */
  lemma DtNascHasNasc(t: string, i: int, c: int)
    requires RegexMatch(DtNascLabel, t, i, c)
    ensures exists j :: i < j && RegexMatch(NascLabel, t, j, c)
  {
    var a :|
      && i + 2 <= a && a + 4 < c
      && AllIn(t, i + 2, a, Space) && OccursAt("nasc", t, a)
      && AllIn(t, a + 4, c, SpaceOrColon);
    assert NascRegex(t, a, c);
    assert RegexMatch(NascLabel, t, a, c);
  }

  /** The second and third patterns never decide: whenever one of them
      matches, the first one does too, so the result is the `nasc` capture
      or else the leftmost bare token. */
  lemma MiddlePatternsNeverDecide(t: string)
    ensures FirstCapture(Priority, t) ==
      if SearchCapture(NascLabel, t).Some? then SearchCapture(NascLabel, t)
      else SearchCapture(AnyDate, t)
  {
    FirstCaptureOfPriority(t);
    if SearchCapture(NascLabel, t).None? {
      SearchCaptureNoneIffNoMatch(NascLabel, t);
      SearchCaptureNoneIffNoMatch(DataDeNascimentoLabel, t);
      SearchCaptureNoneIffNoMatch(DtNascLabel, t);
      forall i, c | RegexMatch(DataDeNascimentoLabel, t, i, c)
        ensures false
      {
        DataDeNascimentoHasNasc(t, i, c);
      }
      forall i, c | RegexMatch(DtNascLabel, t, i, c)
        ensures false
      {
        DtNascHasNasc(t, i, c);
      }
    }
  }

  /** Every labelled match is followed by a date token, so a text without
      any token matches no pattern at all. */
  lemma NoTokenNoMatch(p: Pattern, t: string)
    requires forall i :: !DateAt(t, i)
    ensures SearchCapture(p, t).None?
  {
  }

  /** The four patterns find something exactly when the text holds a date
      token, and what they find is such a token. */
  lemma PriorityFindsToken(t: string)
    ensures FirstCapture(Priority, t).None? <==> forall i :: !DateAt(t, i)
    ensures FirstCapture(Priority, t).Some? ==>
      exists i :: DateAt(t, i) && t[i..i + 10] == FirstCapture(Priority, t).value
  {
    FirstCaptureOfPriority(t);
    if forall i :: !DateAt(t, i) {
      NoTokenNoMatch(NascLabel, t);
      NoTokenNoMatch(DataDeNascimentoLabel, t);
      NoTokenNoMatch(DtNascLabel, t);
      NoTokenNoMatch(AnyDate, t);
    } else {
      var i :| DateAt(t, i);
      assert MatchAt(AnyDate, t, i).Some?;
    }
  }

  /** `extract_date_of_birth(text)`. */
  function ExtractDateOfBirth(text: string): (r: Option<string>)
    ensures r.Some? ==>
      IsDateToken(r.value) && exists i :: DateAt(Lower(text), i) && Lower(text)[i..i + 10] == r.value
    ensures r.None? <==> forall i :: !DateAt(Lower(text), i)
  {
    PriorityFindsToken(Lower(text));
    FirstCapture(Priority, Lower(text))
  }

  /** A `nasc`-labelled date anywhere in the text is what the extraction
      returns (the leftmost such label's date), even when an unlabelled date
      appears earlier in the text. */
  lemma NascLabelWins(text: string, i: int, c: int)
    requires RegexMatch(NascLabel, Lower(text), i, c)
    ensures exists i', c' ::
      && i' <= i
      && LeftmostMatch(NascLabel, Lower(text), i', c')
      && ExtractDateOfBirth(text) == Some(Lower(text)[c'..c' + 10])
  {
    var t := Lower(text);
    SearchCaptureNoneIffNoMatch(NascLabel, t);
    var i' := SearchFrom(NascLabel, t, 0).value;
    SearchSomeIsLeftmost(NascLabel, t, i');
    var c' := MatchAt(NascLabel, t, i').value;
    LeftmostMatchIsCaptured(NascLabel, t, i', c');
    FirstCaptureOfPriority(t);
    assert ExtractDateOfBirth(text) == Some(t[c'..c' + 10]);
    assert i' <= i && LeftmostMatch(NascLabel, t, i', c');
  }

  /** With no labelled match, the loop falls through to the bare date. */
  lemma LabelsFailFallThrough(t: string)
    requires forall i, c ::
      && !RegexMatch(NascLabel, t, i, c)
      && !RegexMatch(DataDeNascimentoLabel, t, i, c)
      && !RegexMatch(DtNascLabel, t, i, c)
    ensures FirstCapture(Priority, t) == SearchCapture(AnyDate, t)
  {
    SearchCaptureNoneIffNoMatch(NascLabel, t);
    SearchCaptureNoneIffNoMatch(DataDeNascimentoLabel, t);
    SearchCaptureNoneIffNoMatch(DtNascLabel, t);
    FirstCaptureOfPriority(t);
  }

  /** The bare-date search finds the leftmost token. */
  lemma AnyDateIsLeftmost(t: string)
    ensures SearchCapture(AnyDate, t).Some? ==>
      exists i ::
        && DateAt(t, i)
        && SearchCapture(AnyDate, t).value == t[i..i + 10]
        && forall j :: 0 <= j < i ==> !DateAt(t, j)
  {
    match SearchFrom(AnyDate, t, 0)
    case None =>
    case Some(i) =>
      assert DateAt(t, i);
      assert SearchCapture(AnyDate, t) == Some(t[i..i + 10]);
      forall j | 0 <= j < i
        ensures !DateAt(t, j)
      {
        assert MatchAt(AnyDate, t, j).None?;
      }
  }

  /** When no label matches, the extraction returns the leftmost date token. */
  lemma FallbackIsLeftmostDate(text: string)
    requires forall i, c ::
      && !RegexMatch(NascLabel, Lower(text), i, c)
      && !RegexMatch(DataDeNascimentoLabel, Lower(text), i, c)
      && !RegexMatch(DtNascLabel, Lower(text), i, c)
    ensures ExtractDateOfBirth(text).Some? ==>
      exists i ::
        && DateAt(Lower(text), i)
        && ExtractDateOfBirth(text).value == Lower(text)[i..i + 10]
        && forall j :: 0 <= j < i ==> !DateAt(Lower(text), j)
  {
    var t := Lower(text);
    LabelsFailFallThrough(t);
    AnyDateIsLeftmost(t);
    assert ExtractDateOfBirth(text) == SearchCapture(AnyDate, t);
  }

  /** The returned token also stands, unchanged, in the text as given. */
  lemma DateOccursInOriginalText(text: string)
    ensures ExtractDateOfBirth(text).Some? ==>
      exists i :: DateAt(text, i) && text[i..i + 10] == ExtractDateOfBirth(text).value
  {
    if ExtractDateOfBirth(text).Some? {
      var i :| DateAt(Lower(text), i) && Lower(text)[i..i + 10] == ExtractDateOfBirth(text).value;
      LowerKeepsDateAt(text, i);
    }
  }

  /** A match at `i` with no `nasc` before it is where the search stops. */
  lemma FirstNascStart(t: string, i: int, c: int)
    requires RegexMatch(NascLabel, t, i, c)
    requires forall j :: 0 <= j < i ==> !OccursAt("nasc", t, j)
    ensures SearchFrom(NascLabel, t, 0) == Some(i)
  {
    MatchAtIsRegexMatch(NascLabel, t, i, c);
    forall j | 0 <= j < i
      ensures MatchAt(NascLabel, t, j).None?
    {
      assert !OccursAt("nasc", t, j);
    }
  }

  /** The capture of the `nasc` search is the loop's result. */
  lemma NascCaptureIsResult(t: string, i: int, c: int)
    requires RegexMatch(NascLabel, t, i, c)
    requires SearchFrom(NascLabel, t, 0) == Some(i)
    ensures FirstCapture(Priority, t) == Some(t[c..c + 10])
  {
    MatchAtIsRegexMatch(NascLabel, t, i, c);
    assert SearchCapture(NascLabel, t) == Some(t[c..c + 10]);
    FirstCaptureOfPriority(t);
  }

  /** When the first `nasc` in the text is followed by a date, that date is
      the result, whatever other dates the text holds. */
  lemma FirstNascLabelDecides(text: string, i: int, c: int)
    requires RegexMatch(NascLabel, Lower(text), i, c)
    requires forall j :: 0 <= j < i ==> !OccursAt("nasc", Lower(text), j)
    ensures ExtractDateOfBirth(text) == Some(Lower(text)[c..c + 10])
  {
    var t := Lower(text);
    FirstNascStart(t, i, c);
    NascCaptureIsResult(t, i, c);
    assert ExtractDateOfBirth(text) == FirstCapture(Priority, t);
  }

  predicate IsTokenChar(c: char) { IsDigit(c) || c == '/' }

  lemma TokenCharAt(s: string, k: int)
    requires IsDateToken(s) && 0 <= k < |s|
    ensures IsTokenChar(s[k])
  {
  }

  /** The layout of `early + " nasc " + born`. */
  lemma LabelledLayout(early: string, born: string, t: string)
    requires IsDateToken(early) && IsDateToken(born)
    requires t == early + " nasc " + born
    ensures Lower(t) == t
    ensures RegexMatch(NascLabel, t, 11, 16)
    ensures forall j :: 0 <= j < 11 ==> !OccursAt("nasc", t, j)
    ensures t[16..26] == born
  {
    forall k | 0 <= k < |t|
      ensures Lower(t)[k] == t[k]
    {
      if k < 10 {
        TokenCharAt(early, k);
      } else if k >= 16 {
        TokenCharAt(born, k - 16);
      }
    }
    forall j | 0 <= j < 11
      ensures !OccursAt("nasc", t, j)
    {
      if j < 10 {
        TokenCharAt(early, j);
      }
      assert t[j] != 'n';
    }
    assert t[16..26] == born;
    assert t[11..15] == "nasc";
    assert AllIn(t, 15, 16, SpaceOrColon);
  }

  /** A date labelled `nasc` is returned even though another date comes
      first and is chronologically earlier or later: the extraction goes by
      label priority, not by position or by date. */
  lemma LabelBeatsEarlierDate(early: string, born: string)
    requires IsDateToken(early) && IsDateToken(born)
    ensures ExtractDateOfBirth(early + " nasc " + born) == Some(born)
  {
    var t := early + " nasc " + born;
    LabelledLayout(early, born, t);
    FirstNascLabelDecides(t, 11, 16);
  }
}
