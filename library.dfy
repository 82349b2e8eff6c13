/** The menu of `main`: the list of books offered, the choice of reader by
    file extension, the bookmark lookup, and the single-key bookmark update
    written back after a reading session. */
module Library {
  import opened Fold
  import opened Reading
  import opened Ordering
  import TextPager
  import UnitPager

  /** `name.endswith(suffix)`, which is case-sensitive. */
  predicate EndsWith(name: string, suffix: string)
  {
    |suffix| <= |name| && name[|name| - |suffix|..] == suffix
  }

  /** The filter of the menu: the name ends in `.txt`, `.epub` or `.pdf`, in exactly that case. */
  predicate Supported(name: string)
  {
    EndsWith(name, ".txt") || EndsWith(name, ".epub") || EndsWith(name, ".pdf")
  }

  /** The directory entries that pass the filter, in listing order. */
  function SupportedNames(listing: seq<string>): seq<string>
  {
    if listing == [] then []
    else (if Supported(listing[0]) then [listing[0]] else []) + SupportedNames(listing[1..])
  }

  /** The filter keeps every supported entry as often as it is listed, and drops the rest. */
  lemma {:induction false} SupportedNamesSpec(listing: seq<string>)
    ensures forall x :: multiset(SupportedNames(listing))[x] == if Supported(x) then multiset(listing)[x] else 0
  {
    if listing != [] {
      SupportedNamesSpec(listing[1..]);
      assert listing == [listing[0]] + listing[1..];
    }
  }

  /** The menu: the supported entries of the listing, sorted. */
  function Books(listing: seq<string>): seq<string>
  {
    Sort(SupportedNames(listing))
  }

  /** The menu is in Python's string order, and holds exactly the supported
      entries of the listing, each as often as it is listed. */
  lemma BooksSpec(listing: seq<string>)
    ensures Sorted(Books(listing))
    ensures forall x :: multiset(Books(listing))[x] == if Supported(x) then multiset(listing)[x] else 0
    ensures forall x :: x in Books(listing) <==> x in listing && Supported(x)
  {
    SortSpec(SupportedNames(listing));
    SupportedNamesSpec(listing);
    forall x ensures x in Books(listing) <==> x in listing && Supported(x) {
      assert x in Books(listing) <==> x in multiset(Books(listing));
      assert x in listing <==> x in multiset(listing);
    }
  }

  /** Any sorted arrangement of the supported entries is the menu: the menu
      does not depend on how `sorted` is implemented. */
  lemma BooksUnique(listing: seq<string>, menu: seq<string>)
    requires Sorted(menu)
    requires forall x :: multiset(menu)[x] == if Supported(x) then multiset(listing)[x] else 0
    ensures menu == Books(listing)
  {
    BooksSpec(listing);
    assert multiset(menu) == multiset(Books(listing));
    SortedUnique(menu, Books(listing));
  }

  /** `name.rfind(c)`: the index of the last occurrence of `c`, or -1. */
  function RFind(name: string, c: char): (r: int)
    ensures -1 <= r < |name|
    ensures r >= 0 ==> name[r] == c
    ensures forall j :: r < j < |name| ==> name[j] != c
    decreases |name|
  {
    if |name| == 0 then -1
    else if name[|name| - 1] == c then |name| - 1
    else RFind(name[..|name| - 1], c)
  }

  /** `Path(name).suffix`: from the last dot on, provided that dot is neither
      the first nor the last character of the name; otherwise empty. */
  function Suffix(name: string): string
  {
    var i := RFind(name, '.');
    if 0 < i < |name| - 1 then name[i..] else ""
  }

  /** A name ending in one of the three extensions has that extension as its
      suffix, unless the name is the extension itself, which counts as a hidden
      file without a suffix. */
  lemma SuffixOfExtension(name: string, e: string)
    requires e == ".txt" || e == ".epub" || e == ".pdf"
    requires EndsWith(name, e)
    ensures Suffix(name) == if |name| > |e| then e else ""
  {
    assert e[0] == '.' && forall j :: 1 <= j < |e| ==> e[j] != '.';
  }

  /** The three readers `main` chooses between. */
  datatype Format = Text | Epub | Pdf

  /** The reader for a lowered suffix; None is "Unsupported file type". */
  function FormatOfExtension(ext: string): Option<Format>
  {
    if ext == ".txt" then Some(Text)
    else if ext == ".epub" then Some(Epub)
    else if ext == ".pdf" then Some(Pdf)
    else None
  }

  /** `Path(book).suffix.lower()` compared with the three extensions. */
  function FormatOf(name: string): Option<Format>
  {
    FormatOfExtension(Lower(Suffix(name)))
  }

  /** The extensions are already in lower case, and the empty suffix names no reader. */
  lemma ExtensionsFold()
    ensures Lower(".txt") == ".txt" && Lower(".epub") == ".epub" && Lower(".pdf") == ".pdf"
    ensures FormatOfExtension(Lower("")) == None
  {
    LowerOfLower(".txt");
    LowerOfLower(".epub");
    LowerOfLower(".pdf");
    assert Lower("") == "";
  }

  /** A name ending in `.txt` opens with the text reader, unless it is `.txt` itself. */
  lemma FormatOfTxt(name: string)
    requires EndsWith(name, ".txt")
    ensures FormatOf(name) == if name == ".txt" then None else Some(Text)
  {
    SuffixOfExtension(name, ".txt");
    ExtensionsFold();
  }

  /** A name ending in `.epub` opens with the EPUB reader, unless it is `.epub` itself. */
  lemma FormatOfEpub(name: string)
    requires EndsWith(name, ".epub")
    ensures FormatOf(name) == if name == ".epub" then None else Some(Epub)
  {
    SuffixOfExtension(name, ".epub");
    ExtensionsFold();
  }

  /** A name ending in `.pdf` opens with the PDF reader, unless it is `.pdf` itself. */
  lemma FormatOfPdf(name: string)
    requires EndsWith(name, ".pdf")
    ensures FormatOf(name) == if name == ".pdf" then None else Some(Pdf)
  {
    SuffixOfExtension(name, ".pdf");
    ExtensionsFold();
  }

  /** Every entry of the menu opens with a reader, except an entry named
      exactly `.txt`, `.epub` or `.pdf`: it passes the filter but has no
      suffix, and is rejected as an unsupported file type. */
  lemma FormatOfSupported(name: string)
    requires Supported(name)
    ensures FormatOf(name).None? <==> name == ".txt" || name == ".epub" || name == ".pdf"
  {
    if EndsWith(name, ".txt") {
      FormatOfTxt(name);
      assert name[|name| - 1] == 't';
      assert name != ".epub" && name != ".pdf";
    } else if EndsWith(name, ".epub") {
      FormatOfEpub(name);
      assert name[|name| - 1] == 'b';
      assert name != ".txt" && name != ".pdf";
    } else {
      FormatOfPdf(name);
      assert name[|name| - 1] == 'f';
      assert name != ".txt" && name != ".epub";
    }
  }

  /** `books[choice]` with Python's negative indexing. */
  function PyIndex(books: seq<string>, choice: int): string
    requires -|books| <= choice < |books|
  {
    if choice < 0 then books[|books| + choice] else books[choice]
  }

  /** The typed number `selection` indexes the menu (one less than the number, as a Python index)
      without raising an IndexError. */
  predicate ValidSelection(listing: seq<string>, selection: int)
  {
    |Books(listing)| > 0 ==> 1 - |Books(listing)| <= selection <= |Books(listing)|
  }

  /** The book opened for the typed number `selection`. */
  function Selected(listing: seq<string>, selection: int): string
    requires |Books(listing)| > 0 && ValidSelection(listing, selection)
  {
    PyIndex(Books(listing), selection - 1)
  }

  /** The menu numbers books from 1, and the chosen book is always on the
      menu; typing 0 opens the last book, as index -1 counts from the end. */
  lemma SelectionNumbering(listing: seq<string>, selection: int)
    requires |Books(listing)| > 0 && ValidSelection(listing, selection)
    ensures 1 <= selection ==> Selected(listing, selection) == Books(listing)[selection - 1]
    ensures selection == 0 ==> Selected(listing, selection) == Books(listing)[|Books(listing)| - 1]
    ensures Selected(listing, selection) in listing && Supported(Selected(listing, selection))
  {
    BooksSpec(listing);
  }

  /** The saved position of the book, or 0 when it has none. */
  function StartPosition(bookmarks: map<string, nat>, book: string): nat
  {
    if book in bookmarks then bookmarks[book] else 0
  }

  /** What the readers see of the selected file: the lines `readlines` gives
      for a text file, the chapter texts of an EPUB, the page texts of a PDF. */
  datatype Document = Document(lines: seq<string>, chapters: seq<string>, pages: seq<string>)

  /** Whether the optional EPUB and PDF libraries are installed. */
  datatype Support = Support(epub: bool, pdf: bool)

  /** The session of the reader for `format`, from the bookmarked position. */
  function ReaderTrace(format: Format, doc: Document, support: Support, start: nat, input: seq<string>): Trace
  {
    match format
    case Text => TextPager.Session(doc.lines, start, input)
    case Epub => if support.epub then UnitPager.Run(|doc.chapters|, start, input, 0) else Trace([], Returned(0))
    case Pdf => if support.pdf then UnitPager.Run(|doc.pages|, start, input, 0) else Trace([], Returned(0))
  }

  /** The unit readers index the document at the bookmarked unit before reading
      any command, so a stale bookmark or an empty document makes them fail. */
  predicate StartOk(format: Option<Format>, doc: Document, support: Support, start: nat)
  {
    match format
    case Some(Epub) => support.epub ==> start < |doc.chapters|
    case Some(Pdf) => support.pdf ==> start < |doc.pages|
    case _ => true
  }

  /** The bookmark of the selected book is one its reader can start from. */
  predicate StartInDocument(listing: seq<string>, bookmarks: map<string, nat>, selection: int,
                            doc: Document, support: Support)
    requires ValidSelection(listing, selection)
  {
    |Books(listing)| > 0 ==>
      StartOk(FormatOf(Selected(listing, selection)), doc, support,
              StartPosition(bookmarks, Selected(listing, selection)))
  }

  /** The bookmarks `main` saves, or None when it saves nothing: an empty menu,
      an unsupported file, or input that runs out inside the reader. */
  function Outcome(listing: seq<string>, bookmarks: map<string, nat>, selection: int,
                   doc: Document, support: Support, input: seq<string>): Option<map<string, nat>>
    requires ValidSelection(listing, selection)
  {
    if |Books(listing)| == 0 then None
    else
      var book := Selected(listing, selection);
      match FormatOf(book)
      case None => None
      case Some(format) =>
        var t := ReaderTrace(format, doc, support, StartPosition(bookmarks, book), input);
        if t.exit.InputExhausted? then None else Some(bookmarks[book := t.exit.position])
  }

  /** `main` over a directory listing, the loaded bookmarks, the typed book
      number, the selected file's contents, the installed libraries and the
      reader's scripted input. */
  method ReadingSession(listing: seq<string>, bookmarks: map<string, nat>, selection: int,
                        doc: Document, support: Support, input: seq<string>)
    returns (saved: Option<map<string, nat>>)
    requires ValidSelection(listing, selection)
    requires StartInDocument(listing, bookmarks, selection, doc, support)
    ensures saved == Outcome(listing, bookmarks, selection, doc, support, input)
    ensures |Books(listing)| == 0 ==> saved.None?
  {
    var books := Books(listing);
    if |books| == 0 {
      return None;
    }
    var choice := selection - 1;
    var book := PyIndex(books, choice);
    var ext := Lower(Suffix(book));
    var lastPos := StartPosition(bookmarks, book);
    var exit: Exit;
    if ext == ".txt" {
      var shown;
      shown, exit := TextPager.ReadTxt(doc.lines, lastPos, input);
    } else if ext == ".epub" {
      var shown;
      shown, exit := UnitPager.ReadEpub(doc.chapters, lastPos, support.epub, input);
    } else if ext == ".pdf" {
      var shown;
      shown, exit := UnitPager.ReadPdf(doc.pages, lastPos, support.pdf, input);
    } else {
      return None;
    }
    if exit.InputExhausted? {
      return None;
    }
    var marks := bookmarks;
    marks := marks[book := exit.position];
    saved := Some(marks);
  }

  /** The reader for `format` can run: the text reader always, the others when their library is installed. */
  predicate Available(format: Format, support: Support)
  {
    match format
    case Text => true
    case Epub => support.epub
    case Pdf => support.pdf
  }

  /** Reopening a book after a saved session displays first the page, chapter or
      unit that was on screen when the reader was left. */
  lemma ReopenResumes(listing: seq<string>, bookmarks: map<string, nat>, selection: int,
                      doc: Document, support: Support, input: seq<string>, later: seq<string>)
    requires ValidSelection(listing, selection) && |Books(listing)| > 0
    requires Outcome(listing, bookmarks, selection, doc, support, input).Some?
    requires Available(FormatOf(Selected(listing, selection)).value, support)
    ensures var book := Selected(listing, selection);
            var format := FormatOf(book).value;
            var before := ReaderTrace(format, doc, support, StartPosition(bookmarks, book), input);
            var after := ReaderTrace(format, doc, support,
                                     StartPosition(Outcome(listing, bookmarks, selection, doc, support, input).value, book), later);
            |before.shown| > 0 && |after.shown| > 0 && after.shown[0] == Last(before.shown)
  {
    var book := Selected(listing, selection);
    var start := StartPosition(bookmarks, book);
    var next := StartPosition(Outcome(listing, bookmarks, selection, doc, support, input).value, book);
    match FormatOf(book).value
    case Text =>
      TextPager.SessionProperties(doc.lines, start, input);
      TextPager.SessionProperties(doc.lines, next, later);
    case Epub =>
      UnitPager.RunShape(|doc.chapters|, start, input, 0);
      UnitPager.RunShape(|doc.chapters|, next, later, 0);
    case Pdf =>
      UnitPager.RunShape(|doc.pages|, start, input, 0);
      UnitPager.RunShape(|doc.pages|, next, later, 0);
  }

  /** A bookmark the reader can start from is replaced by one it can start
      from again, so a later session of the same book does not fail on it; the
      bookmark of a text book is the first line of a page. */
  lemma BookmarkStaysValid(listing: seq<string>, bookmarks: map<string, nat>, selection: int,
                           doc: Document, support: Support, input: seq<string>)
    requires ValidSelection(listing, selection)
    requires StartInDocument(listing, bookmarks, selection, doc, support)
    requires Outcome(listing, bookmarks, selection, doc, support, input).Some?
    ensures StartInDocument(listing, Outcome(listing, bookmarks, selection, doc, support, input).value,
                            selection, doc, support)
    ensures FormatOf(Selected(listing, selection)) == Some(Text) ==>
              Outcome(listing, bookmarks, selection, doc, support, input).value[Selected(listing, selection)]
                % TextPager.LinesPerPage == 0
  {
    var book := Selected(listing, selection);
    var start := StartPosition(bookmarks, book);
    match FormatOf(book).value
    case Text =>
      TextPager.SessionProperties(doc.lines, start, input);
    case Epub =>
      if support.epub {
        UnitPager.RunShape(|doc.chapters|, start, input, 0);
      }
    case Pdf =>
      if support.pdf {
        UnitPager.RunShape(|doc.pages|, start, input, 0);
      }
  }

  /** Without the library an EPUB or PDF needs, its reader returns 0, and the
      book's bookmark is reset to the first unit. */
  lemma MissingLibraryResetsBookmark(listing: seq<string>, bookmarks: map<string, nat>, selection: int,
                                     doc: Document, support: Support, input: seq<string>)
    requires ValidSelection(listing, selection) && |Books(listing)| > 0
    requires FormatOf(Selected(listing, selection)).Some?
    requires !Available(FormatOf(Selected(listing, selection)).value, support)
    ensures Outcome(listing, bookmarks, selection, doc, support, input) == Some(bookmarks[Selected(listing, selection) := 0])
  {
  }

  /** A save writes the reader's return value under the selected book and
      leaves every other bookmark as it was. */
  lemma OnlySelectedBookChanges(listing: seq<string>, bookmarks: map<string, nat>, selection: int,
                                doc: Document, support: Support, input: seq<string>)
    requires ValidSelection(listing, selection)
    requires Outcome(listing, bookmarks, selection, doc, support, input).Some?
    ensures |Books(listing)| > 0 && FormatOf(Selected(listing, selection)).Some?
    ensures Outcome(listing, bookmarks, selection, doc, support, input).value.Keys
              == bookmarks.Keys + {Selected(listing, selection)}
    ensures Outcome(listing, bookmarks, selection, doc, support, input).value[Selected(listing, selection)]
              == ReaderTrace(FormatOf(Selected(listing, selection)).value, doc, support,
                             StartPosition(bookmarks, Selected(listing, selection)), input).exit.position
    ensures forall k :: k in bookmarks && k != Selected(listing, selection) ==>
              Outcome(listing, bookmarks, selection, doc, support, input).value[k] == bookmarks[k]
  {
  }
}
