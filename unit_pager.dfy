/** The reading loop of `read_epub` and `read_pdf`: a counter over a fixed
    number of units (chapters of an EPUB, pages of a PDF), moved by `n` and
    `p` and left by `q`, which returns the unit index itself. The two readers
    run the same loop; they differ only in how the units are extracted. */
module UnitPager {
  import opened Fold
  import opened Reading

  /** A command of the unit readers: there is no search. */
  datatype Command = Next | Prev | Quit | Ignored

  /** Reads one command, the line at `at` folded to lower case; None when the input is exhausted. */
  function ReadCommand(input: seq<string>, at: nat): (r: Option<(Command, nat)>)
    requires at <= |input|
    ensures r.None? <==> at == |input|
    ensures r.Some? ==> r.value.1 == at + 1
    ensures r.Some? ==> (r.value.0 == Next <==> Lower(input[at]) == "n")
    ensures r.Some? ==> (r.value.0 == Prev <==> Lower(input[at]) == "p")
    ensures r.Some? ==> (r.value.0 == Quit <==> Lower(input[at]) == "q")
  {
    if at == |input| then None
    else
      var cmd := Lower(input[at]);
      if cmd == "n" then Some((Next, at + 1))
      else if cmd == "p" then Some((Prev, at + 1))
      else if cmd == "q" then Some((Quit, at + 1))
      else Some((Ignored, at + 1))
  }

  /** One pass through the loop body for a command other than `q`. */
  function Step(total: nat, page: nat, c: Command): nat
    requires !c.Quit?
  {
    match c
    case Next => if page + 1 < total then page + 1 else page
    case Prev => if page > 0 then page - 1 else page
    case Ignored => page
  }

  /** `n` advances exactly one unit when a next unit exists, and otherwise does nothing. */
  lemma NextStopsAtLastUnit(total: nat, page: nat)
    ensures Step(total, page, Next) == page + 1 <==> page + 1 < total
    ensures Step(total, page, Next) == page <==> total <= page + 1
  {
  }

  /** `p` goes back one unit, except on the first, where it does nothing. */
  lemma PrevStopsAtFirstUnit(total: nat, page: nat)
    ensures page > 0 ==> Step(total, page, Prev) == page - 1
    ensures page == 0 ==> Step(total, page, Prev) == 0
  {
  }

  /** Every command keeps the displayed unit within the document. */
  lemma StepKeepsInBounds(total: nat, page: nat, c: Command)
    requires !c.Quit? && page < total
    ensures Step(total, page, c) < total
  {
  }

  /** The loop from unit `page`, reading the input from index `at`:
      the units displayed, and the unit index returned on `q`. */
  function Run(total: nat, page: nat, input: seq<string>, at: nat): Trace
    requires at <= |input|
    decreases |input| - at
  {
    match ReadCommand(input, at)
    case None => Trace([page], InputExhausted)
    case Some((c, after)) =>
      if c.Quit? then Trace([page], Returned(page))
      else
        var rest := Run(total, Step(total, page, c), input, after);
        Trace([page] + rest.shown, rest.exit)
  }

  /** Every run displays its starting unit first; `q` returns the last unit
      displayed; from a unit within the document every displayed unit, and so
      the returned index, is within the document. */
  lemma {:induction false} RunShape(total: nat, page: nat, input: seq<string>, at: nat)
    requires at <= |input|
    ensures |Run(total, page, input, at).shown| >= 1
    ensures Run(total, page, input, at).shown[0] == page
    ensures Run(total, page, input, at).exit.Returned? ==>
              Run(total, page, input, at).exit.position == Last(Run(total, page, input, at).shown)
    ensures page < total ==>
              forall k :: 0 <= k < |Run(total, page, input, at).shown| ==> Run(total, page, input, at).shown[k] < total
    decreases |input| - at
  {
    match ReadCommand(input, at)
    case None =>
    case Some((c, after)) =>
      if !c.Quit? {
        var next := Step(total, page, c);
        RunShape(total, next, input, after);
        if page < total {
          StepKeepsInBounds(total, page, c);
        }
      }
  }

  /** What `ReadCommand` makes of the line at `at`, by its lowered text. */
  lemma ReadCommandCases(input: seq<string>, at: nat)
    requires at < |input|
    ensures Lower(input[at]) == "n" ==> ReadCommand(input, at) == Some((Next, at + 1))
    ensures Lower(input[at]) == "p" ==> ReadCommand(input, at) == Some((Prev, at + 1))
    ensures Lower(input[at]) == "q" ==> ReadCommand(input, at) == Some((Quit, at + 1))
    ensures Lower(input[at]) != "n" && Lower(input[at]) != "p" && Lower(input[at]) != "q" ==>
              ReadCommand(input, at) == Some((Ignored, at + 1))
  {
  }

  /** A line that is none of the three commands, in either case, changes
      nothing: the same unit is displayed again. */
  lemma OtherInputRedisplays(total: nat, page: nat, input: seq<string>, at: nat)
    requires at < |input|
    requires Lower(input[at]) != "n" && Lower(input[at]) != "p" && Lower(input[at]) != "q"
    ensures Run(total, page, input, at).shown == [page] + Run(total, page, input, at + 1).shown
    ensures Run(total, page, input, at).exit == Run(total, page, input, at + 1).exit
  {
  }

  /** One iteration of `Run`, for a command other than `q`. */
  lemma RunUnfold(before: seq<nat>, total: nat, page: nat, input: seq<string>, at: nat,
                  c: Command, next: nat)
    requires at <= |input|
    requires ReadCommand(input, at) == Some((c, at + 1)) && !c.Quit?
    requires next == Step(total, page, c)
    ensures before + Run(total, page, input, at).shown == (before + [page]) + Run(total, next, input, at + 1).shown
    ensures Run(total, page, input, at).exit == Run(total, next, input, at + 1).exit
  {
  }

  /** The loop shared by `read_epub` and `read_pdf`, over `total` units from
      `startPage`. Displaying a unit indexes the document, so `read_epub` and
      `read_pdf` fail unless the starting unit exists. */
  method Browse(total: nat, startPage: nat, input: seq<string>) returns (shown: seq<nat>, exit: Exit)
    requires startPage < total
    ensures Trace(shown, exit) == Run(total, startPage, input, 0)
    ensures |shown| >= 1 && shown[0] == startPage
    ensures forall k :: 0 <= k < |shown| ==> shown[k] < total
    ensures exit.Returned? ==> exit.position == Last(shown) && exit.position < total
  {
    var page: nat := startPage;
    ghost var whole := Run(total, page, input, 0);
    var i := 0;
    shown := [];
    while true
      invariant i <= |input|
      invariant shown + Run(total, page, input, i).shown == whole.shown
      invariant Run(total, page, input, i).exit == whole.exit
      decreases |input| - i
    {
      ghost var before, current := shown, page;
      shown := shown + [page];
      if i == |input| {
        exit := InputExhausted;
        break;
      }
      var cmd := Lower(input[i]);
      ReadCommandCases(input, i);
      ghost var c: Command;
      if cmd == "n" && page + 1 < total {
        page := page + 1;
        c := Next;
      } else if cmd == "p" && page > 0 {
        page := page - 1;
        c := Prev;
      } else if cmd == "q" {
        exit := Returned(page);
        break;
      } else {
        c := if cmd == "n" then Next else if cmd == "p" then Prev else Ignored;
      }
      RunUnfold(before, total, current, input, i, c, page);
      i := i + 1;
    }
    RunShape(total, startPage, input, 0);
  }

  /** `read_epub(path, start_page)` over the extracted chapter texts. Without the
      EPUB libraries it returns 0 at once and displays nothing. */
  method ReadEpub(chapters: seq<string>, startPage: nat, available: bool, input: seq<string>)
    returns (shown: seq<nat>, exit: Exit)
    requires available ==> startPage < |chapters|
    ensures !available ==> shown == [] && exit == Returned(0)
    ensures available ==> Trace(shown, exit) == Run(|chapters|, startPage, input, 0)
    ensures available ==> forall k :: 0 <= k < |shown| ==> shown[k] < |chapters|
    ensures available && exit.Returned? ==> exit.position == Last(shown) && exit.position < |chapters|
  {
    if !available {
      return [], Returned(0);
    }
    shown, exit := Browse(|chapters|, startPage, input);
  }

  /** `read_pdf(path, start_page)` over the document's page texts. Without
      PyMuPDF it returns 0 at once and displays nothing. */
  method ReadPdf(pages: seq<string>, startPage: nat, available: bool, input: seq<string>)
    returns (shown: seq<nat>, exit: Exit)
    requires available ==> startPage < |pages|
    ensures !available ==> shown == [] && exit == Returned(0)
    ensures available ==> Trace(shown, exit) == Run(|pages|, startPage, input, 0)
    ensures available ==> forall k :: 0 <= k < |shown| ==> shown[k] < |pages|
    ensures available && exit.Returned? ==> exit.position == Last(shown) && exit.position < |pages|
  {
    if !available {
      return [], Returned(0);
    }
    shown, exit := Browse(|pages|, startPage, input);
  }
}
