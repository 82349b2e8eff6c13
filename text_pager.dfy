/** The plain-text reader: a read-only sequence of lines shown 25 at a time,
    a page counter driven by one-letter commands, and keyword search. */
module TextPager {
  import opened Fold
  import opened Reading

  const LinesPerPage: nat := 25

  /** The page count printed in the header: one more than the number of full 25-line pages. */
  function TotalPages(lineCount: nat): (total: nat)
    ensures 1 <= total
    ensures (total - 1) * LinesPerPage <= lineCount < total * LinesPerPage
  {
    lineCount / LinesPerPage + 1
  }

  /** The page on which the bookmarked line lies. */
  function StartPage(startLine: nat): (page: nat)
    ensures page * LinesPerPage <= startLine < page * LinesPerPage + LinesPerPage
  {
    startLine / LinesPerPage
  }

  /** The 25 lines of a page, cut short at the end of the file as a Python slice is. */
  function PageLines(lines: seq<string>, page: nat): (view: seq<string>)
    ensures page * LinesPerPage >= |lines| ==> view == []
    ensures page * LinesPerPage < |lines| ==>
              |view| == if |lines| - page * LinesPerPage < LinesPerPage
                        then |lines| - page * LinesPerPage else LinesPerPage
    ensures forall k :: 0 <= k < |view| ==> view[k] == lines[page * LinesPerPage + k]
  {
    var start := page * LinesPerPage;
    var end := start + LinesPerPage;
    if start >= |lines| then [] else if end >= |lines| then lines[start..] else lines[start..end]
  }

  /** The invariant of the loop: the page is the first one or begins inside the file. */
  predicate InRange(lines: seq<string>, page: nat)
  {
    page == 0 || page * LinesPerPage < |lines|
  }

  /** An in-range page is never past the page count shown in the header. */
  lemma PageWithinTotal(lines: seq<string>, page: nat)
    requires InRange(lines, page)
    ensures page + 1 <= TotalPages(|lines|)
  {
  }

  /** When the file is a positive multiple of 25 lines long, the last page counted
      by `TotalPages` is empty, and no in-range page reaches it. */
  lemma LastCountedPageEmpty(lines: seq<string>, page: nat)
    requires |lines| > 0 && |lines| % LinesPerPage == 0
    requires InRange(lines, page)
    ensures PageLines(lines, TotalPages(|lines|) - 1) == []
    ensures page + 1 < TotalPages(|lines|)
    ensures PageCount(|lines|) == TotalPages(|lines|) - 1
  {
  }

  /** The page count the header evidently means: the number of pages holding at
      least one line, and 1 for an empty file. */
  function PageCount(lineCount: nat): (count: nat)
    ensures 1 <= count <= TotalPages(lineCount)
    ensures lineCount > 0 ==> (count - 1) * LinesPerPage < lineCount <= count * LinesPerPage
  {
    if lineCount == 0 then 1 else (lineCount + LinesPerPage - 1) / LinesPerPage
  }

  /** The pages numbered up to `PageCount` are exactly the pages the reader can be on. */
  lemma PageCountCountsReachablePages(lines: seq<string>, page: nat)
    ensures InRange(lines, page) <==> page + 1 <= PageCount(|lines|)
  {
    var count := PageCount(|lines|);
    if |lines| > 0 && page * LinesPerPage < |lines| {
      assert page * LinesPerPage < count * LinesPerPage;
    }
    if |lines| > 0 && page + 1 <= count {
      assert page * LinesPerPage <= (count - 1) * LinesPerPage;
    }
  }

  /** The line contains the keyword, both folded to lower case. */
  predicate Hit(line: string, keyword: string)
  {
    Contains(Lower(line), Lower(keyword))
  }

  /** No line before index `m` contains the keyword. */
  predicate NoHitBefore(lines: seq<string>, keyword: string, m: nat)
    requires m <= |lines|
  {
    forall j :: 0 <= j < m ==> !Hit(lines[j], keyword)
  }

  /** For each line, whether it contains the keyword. */
  function HitFlags(lines: seq<string>, keyword: string): (flags: seq<bool>)
    ensures |flags| == |lines|
    ensures forall j :: 0 <= j < |lines| ==> flags[j] == Hit(lines[j], keyword)
  {
    seq(|lines|, j requires 0 <= j < |lines| => Hit(lines[j], keyword))
  }

  /** The indices from `i` on whose flag is set, in increasing order. */
  function IndicesFrom(flags: seq<bool>, i: nat): seq<nat>
    requires i <= |flags|
    decreases |flags| - i
  {
    if i == |flags| then []
    else if flags[i] then [i] + IndicesFrom(flags, i + 1)
    else IndicesFrom(flags, i + 1)
  }

  /** The indices of the lines that contain the keyword, ignoring case, in file order. */
  function Matches(lines: seq<string>, keyword: string): seq<nat>
  {
    IndicesFrom(HitFlags(lines, keyword), 0)
  }

  lemma {:induction false} IndicesFromSound(flags: seq<bool>, i: nat)
    requires i <= |flags|
    ensures forall k :: 0 <= k < |IndicesFrom(flags, i)| ==>
              i <= IndicesFrom(flags, i)[k] < |flags| && flags[IndicesFrom(flags, i)[k]]
    decreases |flags| - i
  {
    if i < |flags| {
      IndicesFromSound(flags, i + 1);
    }
  }

  lemma {:induction false} IndicesFromIncreasing(flags: seq<bool>, i: nat)
    requires i <= |flags|
    ensures forall k, l :: 0 <= k < l < |IndicesFrom(flags, i)| ==> IndicesFrom(flags, i)[k] < IndicesFrom(flags, i)[l]
    decreases |flags| - i
  {
    if i < |flags| {
      IndicesFromIncreasing(flags, i + 1);
      IndicesFromSound(flags, i + 1);
    }
  }

  lemma {:induction false} IndicesFromComplete(flags: seq<bool>, i: nat)
    requires i <= |flags|
    ensures forall j :: i <= j < |flags| && flags[j] ==> j in IndicesFrom(flags, i)
    decreases |flags| - i
  {
    if i < |flags| {
      IndicesFromComplete(flags, i + 1);
    }
  }

  /** The set of indices from `i` on whose flag is set. */
  function SetFrom(flags: seq<bool>, i: nat): set<nat>
  {
    set j: nat | i <= j < |flags| && flags[j]
  }

  lemma {:induction false} IndicesFromCount(flags: seq<bool>, i: nat)
    requires i <= |flags|
    ensures |IndicesFrom(flags, i)| == |SetFrom(flags, i)|
    decreases |flags| - i
  {
    if i == |flags| {
      assert SetFrom(flags, i) == {};
    } else {
      IndicesFromCount(flags, i + 1);
      if flags[i] {
        assert SetFrom(flags, i) == {i} + SetFrom(flags, i + 1);
      } else {
        assert SetFrom(flags, i) == SetFrom(flags, i + 1);
      }
    }
  }

  /** The match list holds exactly the indices of the matching lines, in increasing order. */
  lemma MatchesSpec(lines: seq<string>, keyword: string)
    ensures forall k :: 0 <= k < |Matches(lines, keyword)| ==>
              Matches(lines, keyword)[k] < |lines| && Hit(lines[Matches(lines, keyword)[k]], keyword)
    ensures forall k, l :: 0 <= k < l < |Matches(lines, keyword)| ==> Matches(lines, keyword)[k] < Matches(lines, keyword)[l]
    ensures forall j :: 0 <= j < |lines| ==> (j in Matches(lines, keyword) <==> Hit(lines[j], keyword))
  {
    var flags := HitFlags(lines, keyword);
    IndicesFromSound(flags, 0);
    IndicesFromIncreasing(flags, 0);
    IndicesFromComplete(flags, 0);
  }

  /** The set of indices of the lines that contain the keyword. */
  function HitSet(lines: seq<string>, keyword: string): set<nat>
  {
    set j: nat | j < |lines| && Hit(lines[j], keyword)
  }

  /** The count printed after a search ("Found N matches") is the number of matching lines. */
  lemma MatchCount(lines: seq<string>, keyword: string)
    ensures |Matches(lines, keyword)| == |HitSet(lines, keyword)|
    ensures |Matches(lines, keyword)| == 0 <==> NoHitBefore(lines, keyword, |lines|)
  {
    var flags := HitFlags(lines, keyword);
    IndicesFromCount(flags, 0);
    assert SetFrom(flags, 0) == HitSet(lines, keyword);
    MatchesSpec(lines, keyword);
    if |Matches(lines, keyword)| > 0 {
      assert Hit(lines[Matches(lines, keyword)[0]], keyword);
    }
  }

  /** The first element of the match list is the earliest matching line. */
  lemma FirstMatchIsEarliest(lines: seq<string>, keyword: string)
    requires |Matches(lines, keyword)| > 0
    ensures Matches(lines, keyword)[0] < |lines|
    ensures Hit(lines[Matches(lines, keyword)[0]], keyword)
    ensures NoHitBefore(lines, keyword, Matches(lines, keyword)[0])
  {
    MatchesSpec(lines, keyword);
    var m := Matches(lines, keyword);
    assert forall k :: 0 < k < |m| ==> m[0] < m[k];
  }

  /** A command of the text reader, as read from the input. */
  datatype Command = Next | Prev | Search(keyword: string) | Quit | Ignored

  /** Reads one command from the input lines at index `at`: a line, folded to lower
      case; after `s`, a second line holding the keyword. Returns the command and
      the index of the first line not consumed, or None when the input runs out. */
  function ReadCommand(input: seq<string>, at: nat): (r: Option<(Command, nat)>)
    requires at <= |input|
    ensures r.None? <==> at == |input| || (Lower(input[at]) == "s" && at + 1 == |input|)
    ensures r.Some? ==> at < r.value.1 <= |input|
    ensures r.Some? && r.value.0.Search? ==> at + 1 < |input| && r.value == (Search(input[at + 1]), at + 2)
    ensures r.Some? && Lower(input[at]) != "s" ==> r.value.1 == at + 1
    ensures r.Some? ==> (r.value.0.Search? <==> Lower(input[at]) == "s")
    ensures r.Some? && Lower(input[at]) != "s" ==> (r.value.0 == Next <==> Lower(input[at]) == "n")
    ensures r.Some? && Lower(input[at]) != "s" ==> (r.value.0 == Prev <==> Lower(input[at]) == "p")
    ensures r.Some? ==> (r.value.0 == Quit <==> Lower(input[at]) == "q")
  {
    if at == |input| then None
    else
      var cmd := Lower(input[at]);
      if cmd == "n" then Some((Next, at + 1))
      else if cmd == "p" then Some((Prev, at + 1))
      else if cmd == "s" then (if at + 1 == |input| then None else Some((Search(input[at + 1]), at + 2)))
      else if cmd == "q" then Some((Quit, at + 1))
      else Some((Ignored, at + 1))
  }

  /** One pass through the loop body for a command other than `q`. */
  function Step(lines: seq<string>, page: nat, c: Command): nat
    requires !c.Quit?
  {
    match c
    case Next => if page * LinesPerPage + LinesPerPage < |lines| then page + 1 else page
    case Prev => if page > 0 then page - 1 else page
    case Search(keyword) =>
      var matches := Matches(lines, keyword);
      if |matches| > 0 then matches[0] / LinesPerPage else page
    case Ignored => page
  }

  /** `n` advances exactly one page when the current page ends before the end of
      the file, and otherwise leaves the page as it is. */
  lemma NextAdvancesBeforeEnd(lines: seq<string>, page: nat)
    ensures Step(lines, page, Next) == page + 1 <==> (page + 1) * LinesPerPage < |lines|
    ensures Step(lines, page, Next) == page <==> |lines| <= (page + 1) * LinesPerPage
  {
  }

  /** `p` goes back one page, except on the first page, where it does nothing. */
  lemma PrevStopsAtFirstPage(lines: seq<string>, page: nat)
    ensures page > 0 ==> Step(lines, page, Prev) == page - 1
    ensures page == 0 ==> Step(lines, page, Prev) == 0
  {
  }

  /** `s` jumps to the page holding the earliest matching line, and stays put when no line matches. */
  lemma SearchGoesToEarliestMatch(lines: seq<string>, page: nat, keyword: string, m: nat)
    requires m < |lines| && Hit(lines[m], keyword) && NoHitBefore(lines, keyword, m)
    ensures Step(lines, page, Search(keyword)) == m / LinesPerPage
    ensures Step(lines, page, Search(keyword)) * LinesPerPage <= m < (Step(lines, page, Search(keyword)) + 1) * LinesPerPage
  {
    MatchesSpec(lines, keyword);
    assert m in Matches(lines, keyword);
    FirstMatchIsEarliest(lines, keyword);
    var first := Matches(lines, keyword)[0];
    assert !(first < m);
    assert !(m < first);
  }

  lemma SearchWithoutMatchStays(lines: seq<string>, page: nat, keyword: string)
    requires NoHitBefore(lines, keyword, |lines|)
    ensures Step(lines, page, Search(keyword)) == page
  {
    MatchCount(lines, keyword);
  }

  /** Every command keeps the loop invariant. */
  lemma StepKeepsInRange(lines: seq<string>, page: nat, c: Command)
    requires !c.Quit? && InRange(lines, page)
    ensures InRange(lines, Step(lines, page, c))
  {
    if c.Search? && |Matches(lines, c.keyword)| > 0 {
      FirstMatchIsEarliest(lines, c.keyword);
    }
  }

  /** The loop of `read_txt` from page `page`, reading the input from index `at`:
      the pages displayed, and the line offset returned on `q`. */
  function Run(lines: seq<string>, page: nat, input: seq<string>, at: nat): Trace
    requires at <= |input|
    decreases |input| - at
  {
    match ReadCommand(input, at)
    case None => Trace([page], InputExhausted)
    case Some((c, after)) =>
      if c.Quit? then Trace([page], Returned(page * LinesPerPage))
      else
        var rest := Run(lines, Step(lines, page, c), input, after);
        Trace([page] + rest.shown, rest.exit)
  }

  /** Every run displays its starting page first; `q` returns the first line
      of the last page displayed, and from an in-range page every displayed page
      is in range. */
  lemma {:induction false} RunShape(lines: seq<string>, page: nat, input: seq<string>, at: nat)
    requires at <= |input|
    ensures var t := Run(lines, page, input, at);
            && |t.shown| >= 1 && t.shown[0] == page
            && (t.exit.Returned? ==> t.exit.position == Last(t.shown) * LinesPerPage)
            && (InRange(lines, page) ==> forall k :: 0 <= k < |t.shown| ==> InRange(lines, t.shown[k]))
    decreases |input| - at
  {
    match ReadCommand(input, at)
    case None =>
    case Some((c, after)) =>
      if !c.Quit? {
        var next := Step(lines, page, c);
        RunShape(lines, next, input, after);
        if InRange(lines, page) {
          StepKeepsInRange(lines, page, c);
        }
      }
  }

  /** The whole session of `read_txt` from the bookmarked line on. */
  function Session(lines: seq<string>, startLine: nat, input: seq<string>): Trace
  {
    Run(lines, StartPage(startLine), input, 0)
  }

  /** In a session that ends with `q`, the returned offset is a multiple of 25,
      and reopening the book at it resumes on the last page displayed. When the
      bookmark starts in range, every page displayed holds a line of the file
      (or is the single page of an empty file). */
  lemma SessionProperties(lines: seq<string>, startLine: nat, input: seq<string>)
    ensures var t := Session(lines, startLine, input);
            && |t.shown| >= 1 && t.shown[0] == StartPage(startLine)
            && (t.exit.Returned? ==> t.exit.position % LinesPerPage == 0)
            && (t.exit.Returned? ==> StartPage(t.exit.position) == Last(t.shown))
            && (InRange(lines, StartPage(startLine)) ==>
                  forall k :: 0 <= k < |t.shown| ==> t.shown[k] + 1 <= PageCount(|lines|))
  {
    var t := Session(lines, startLine, input);
    RunShape(lines, StartPage(startLine), input, 0);
    if t.exit.Returned? {
      var last := Last(t.shown);
      assert t.exit.position == last * LinesPerPage;
    }
    if InRange(lines, StartPage(startLine)) {
      forall k | 0 <= k < |t.shown| ensures t.shown[k] + 1 <= PageCount(|lines|) {
        PageCountCountsReachablePages(lines, t.shown[k]);
      }
    }
  }

  /** What `ReadCommand` makes of the line at `at`, by its lowered text. */
  lemma ReadCommandCases(input: seq<string>, at: nat)
    requires at < |input|
    ensures Lower(input[at]) == "n" ==> ReadCommand(input, at) == Some((Next, at + 1))
    ensures Lower(input[at]) == "p" ==> ReadCommand(input, at) == Some((Prev, at + 1))
    ensures Lower(input[at]) == "s" && at + 1 < |input| ==>
              ReadCommand(input, at) == Some((Search(input[at + 1]), at + 2))
    ensures Lower(input[at]) == "q" ==> ReadCommand(input, at) == Some((Quit, at + 1))
    ensures Lower(input[at]) != "n" && Lower(input[at]) != "p" && Lower(input[at]) != "s" && Lower(input[at]) != "q" ==>
              ReadCommand(input, at) == Some((Ignored, at + 1))
  {
  }

  /** One iteration of `Run`, for a command other than `q`: the page is displayed,
      then the loop goes on from the next page with the rest of the input. */
  lemma RunUnfold(before: seq<nat>, lines: seq<string>, page: nat, input: seq<string>, at: nat,
                  c: Command, after: nat, next: nat)
    requires at <= |input|
    requires ReadCommand(input, at) == Some((c, after)) && !c.Quit?
    requires next == Step(lines, page, c)
    ensures before + Run(lines, page, input, at).shown == (before + [page]) + Run(lines, next, input, after).shown
    ensures Run(lines, page, input, at).exit == Run(lines, next, input, after).exit
  {
  }

  /** `q` ends the loop at once, returning the offset of the current page's first line. */
  lemma QuitEndsLoop(lines: seq<string>, page: nat, input: seq<string>, at: nat)
    requires at < |input| && (input[at] == "q" || input[at] == "Q")
    ensures Run(lines, page, input, at) == Trace([page], Returned(page * LinesPerPage))
  {
  }

  /** A line that is none of the four commands, in either case, changes
      nothing: the same page is displayed again. */
  lemma OtherInputRedisplays(lines: seq<string>, page: nat, input: seq<string>, at: nat)
    requires at < |input|
    requires Lower(input[at]) != "n" && Lower(input[at]) != "p" && Lower(input[at]) != "s" && Lower(input[at]) != "q"
    ensures Run(lines, page, input, at).shown == [page] + Run(lines, page, input, at + 1).shown
    ensures Run(lines, page, input, at).exit == Run(lines, page, input, at + 1).exit
  {
  }

  /** Searching for the empty keyword in a non-empty file goes to the first page,
      since the empty string occurs in every line. */
  lemma EmptyKeywordGoesToFirstPage(lines: seq<string>, page: nat)
    requires |lines| > 0
    ensures Step(lines, page, Search("")) == 0
  {
    ContainsEmpty(Lower(lines[0]));
    SearchGoesToEarliestMatch(lines, page, "", 0);
  }

  /** `read_txt(lines, start_line)` over a scripted input, with the loop of `read_txt` in `hybrid_reader.py`. */
  method ReadTxt(lines: seq<string>, startLine: nat, input: seq<string>) returns (shown: seq<nat>, exit: Exit)
    ensures Trace(shown, exit) == Session(lines, startLine, input)
    ensures |shown| >= 1 && shown[0] == StartPage(startLine)
    ensures exit.Returned? ==> exit.position % LinesPerPage == 0 && StartPage(exit.position) == Last(shown)
    ensures InRange(lines, StartPage(startLine)) ==>
              forall k :: 0 <= k < |shown| ==> shown[k] + 1 <= PageCount(|lines|)
  {
    var page: nat := StartPage(startLine);
    ghost var whole := Run(lines, page, input, 0);
    var i := 0;
    shown := [];
    while true
      invariant i <= |input|
      invariant shown + Run(lines, page, input, i).shown == whole.shown
      invariant Run(lines, page, input, i).exit == whole.exit
      decreases |input| - i
    {
      ghost var at, before, current := i, shown, page;
      shown := shown + [page];
      if i == |input| {
        exit := InputExhausted;
        break;
      }
      var start := page * LinesPerPage;
      var end := start + LinesPerPage;
      var cmd := Lower(input[i]);
      ReadCommandCases(input, at);
      i := i + 1;
      ghost var c: Command;
      if cmd == "n" && end < |lines| {
        page := page + 1;
        c := Next;
      } else if cmd == "p" && page > 0 {
        page := page - 1;
        c := Prev;
      } else if cmd == "s" {
        if i == |input| {
          exit := InputExhausted;
          break;
        }
        var keyword := input[i];
        i := i + 1;
        var matches := Matches(lines, keyword);
        if |matches| > 0 {
          page := matches[0] / LinesPerPage;
        }
        c := Search(keyword);
      } else if cmd == "q" {
        exit := Returned(page * LinesPerPage);
        break;
      } else {
        c := if cmd == "n" then Next else if cmd == "p" then Prev else Ignored;
      }
      RunUnfold(before, lines, current, input, at, c, i, page);
    }
    SessionProperties(lines, startLine, input);
  }
}
