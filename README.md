# Hybrid novel reader: a verified model of its pagers and bookmarks

`hybrid_reader.py` is a terminal reader for a directory of books in three
formats.
- A text file is shown 25 lines per page. The reader accepts `n`ext, `p`rev, `s`earch and `q`uit.
- An EPUB is shown one chapter at a time, and a PDF one page at a time. These readers accept `n`, `p` and `q`.
- A JSON file keeps a bookmark per book. `q` stores the position where the reader was left, and the next session reopens the book there.

This project models the parts of the program that compute something: the
page arithmetic and command handling of the three reading loops, the
case-insensitive search, the menu of books, the choice of reader by file
extension, and the bookmark lookup and update.

Each reading loop is a `method` with a `while true` loop, branch for branch
as `hybrid_reader.py` writes it. Keyboard input is a sequence of input lines. The loop is
proved equal to a recursive specification function, `Run`. `Run` returns
a `Trace`: the pages displayed, in order, and how the loop ended (`q`
returning a position, or the input running out). The properties are lemmas
about `Run`.

Modules:
- `Fold` (`fold.dfy`): lower-casing and substring search.
- `Reading` (`reading.dfy`): `Option`, `Exit`, `Trace`.
- `TextPager` (`text_pager.dfy`): `read_txt`.
- `UnitPager` (`unit_pager.dfy`): `read_epub` and `read_pdf`. Their loops are the same, so one method `Browse` serves both.
- `Ordering` (`ordering.dfy`): Python's string order and `sorted`.
- `Library` (`library.dfy`): `main`.

## Model

| member | source | states |
|---|---|---|
| Fold.Lower | hybrid_reader.py:49 | lower-casing keeps the length and folds each character on its own |
| Fold.LowerIsLetter | hybrid_reader.py:49-62 | a lowered command equals a letter exactly when the input line is that letter in lower or upper case |
| Fold.ContainsEmpty | hybrid_reader.py:57 | the empty keyword occurs in every line |
| TextPager.TotalPages | hybrid_reader.py:37 | the page count is the least number of 25-line pages that strictly exceeds the line count |
| TextPager.StartPage | hybrid_reader.py:38 | the starting page is the 25-line page that holds the bookmarked line |
| TextPager.PageLines | hybrid_reader.py:44-46 | the displayed lines are the 25 lines of the page, cut at end of file and empty past it |
| TextPager.PageWithinTotal | hybrid_reader.py:37-42 | a page that is the first one or starts inside the file is numbered at most the page count in the header |
| TextPager.LastCountedPageEmpty | hybrid_reader.py:37-52 | when the line count is a positive multiple of 25, the last counted page is empty, `n` never reaches it, and the header counts one page more than `PageCount` |
| TextPager.PageCount | hybrid_reader.py:37 | the corrected page count lies between 1 and the header's count, and is the least number of 25-line pages that holds every line |
| TextPager.PageCountCountsReachablePages | hybrid_reader.py:37-62 | a page can be displayed, by the loop invariant, exactly when its number is at most the corrected page count |
| TextPager.MatchesSpec | hybrid_reader.py:57 | the match list holds exactly the indices of the matching lines, each in range, in increasing order |
| TextPager.MatchCount | hybrid_reader.py:57-58 | the printed match count is the number of matching lines, and it is zero exactly when no line matches |
| TextPager.FirstMatchIsEarliest | hybrid_reader.py:59-60 | the first listed match is a matching line with no matching line before it |
| TextPager.ReadCommand | hybrid_reader.py:49-56 | input runs out at a command, or after `s` before the keyword; `s` consumes the keyword line; otherwise the command is `n`, `p` or `q` exactly when the lowered line is that letter |
| TextPager.NextAdvancesBeforeEnd | hybrid_reader.py:44-52 | `n` moves one page forward exactly when the current page ends before the end of the file, and otherwise stays |
| TextPager.PrevStopsAtFirstPage | hybrid_reader.py:53-54 | `p` moves one page back except on page 0, where it stays |
| TextPager.SearchGoesToEarliestMatch | hybrid_reader.py:55-60 | when line m is the earliest match, `s` goes to page m div 25, the page that holds line m |
| TextPager.SearchWithoutMatchStays | hybrid_reader.py:55-60 | when no line matches, `s` leaves the page unchanged |
| TextPager.EmptyKeywordGoesToFirstPage | hybrid_reader.py:55-60 | in a non-empty file, searching for the empty keyword goes to page 0 |
| TextPager.StepKeepsInRange | hybrid_reader.py:51-62 | every command keeps the invariant "page 0, or the page starts inside the file" |
| TextPager.OtherInputRedisplays | hybrid_reader.py:49-62 | a line that is none of `n`, `p`, `s`, `q` in either case redisplays the same page and consumes one line |
| TextPager.QuitEndsLoop | hybrid_reader.py:61-64 | `q` ends the loop at once and returns the first line of the current page |
| TextPager.RunShape | hybrid_reader.py:40-64 | the loop displays its starting page first; `q` returns 25 times the last page displayed; from an in-range page every displayed page is in range |
| TextPager.SessionProperties | hybrid_reader.py:33-64 | a session starts on the bookmarked line's page; the returned offset is a multiple of 25 whose page is the last one displayed; from an in-range start every displayed page number is at most the corrected page count `PageCount`, and therefore at most the header's count |
| TextPager.ReadTxt | hybrid_reader.py:33-64 | the loop as written displays and returns exactly what `Session` specifies, so the facts of `SessionProperties` hold for it |
| UnitPager.ReadCommand | hybrid_reader.py:89-95 | one line per command, in either reader (the PDF loop repeats it at lines 116-122); the command is `n`, `p` or `q` exactly when the lowered line is that letter |
| UnitPager.NextStopsAtLastUnit | hybrid_reader.py:90-91 | `n` moves one unit forward exactly when a next unit exists, and otherwise stays (the same test is at lines 117-118) |
| UnitPager.PrevStopsAtFirstUnit | hybrid_reader.py:92-93 | `p` moves one unit back except on unit 0, where it stays (the same test is at lines 119-120) |
| UnitPager.OtherInputRedisplays | hybrid_reader.py:89-95 | a line that is none of `n`, `p`, `q` in either case redisplays the same unit |
| UnitPager.StepKeepsInBounds | hybrid_reader.py:90-95 | every command keeps the unit index below the unit count |
| UnitPager.RunShape | hybrid_reader.py:82-97 | the loop displays its starting unit first; `q` returns the last unit displayed; from a unit in the document every displayed unit is in the document |
| UnitPager.Browse | hybrid_reader.py:79-97 | the loop as written equals `Run`; every displayed unit, and the returned index, is below the unit count |
| UnitPager.ReadEpub | hybrid_reader.py:67-97 | without the EPUB libraries it shows nothing and returns 0; otherwise it runs the unit loop over the chapters, staying in range |
| UnitPager.ReadPdf | hybrid_reader.py:100-124 | without PyMuPDF it shows nothing and returns 0; otherwise it runs the unit loop over the pages, staying in range |
| Ordering.LexLeTotal | hybrid_reader.py:131 | any two names are comparable in Python's string order |
| Ordering.LexLeAntisymmetric | hybrid_reader.py:131 | two names each at most the other are equal |
| Ordering.LexLeTransitive | hybrid_reader.py:131 | the string order is transitive |
| Ordering.SortSpec | hybrid_reader.py:131 | sorting yields an ordered sequence with the same names, each as often |
| Ordering.SortedUnique | hybrid_reader.py:131 | two ordered sequences with the same names are equal |
| Library.SupportedNamesSpec | hybrid_reader.py:131 | the filter keeps each name ending in `.txt`, `.epub` or `.pdf` as often as it is listed, and drops every other name |
| Library.BooksSpec | hybrid_reader.py:131 | the menu is sorted and holds exactly the supported directory entries |
| Library.BooksUnique | hybrid_reader.py:131 | every sorted arrangement of the supported entries is the menu |
| Library.RFind | hybrid_reader.py:142 | the result is the index of the last occurrence of the character, or -1 when it does not occur |
| Library.SuffixOfExtension | hybrid_reader.py:142 | a name ending in `.txt`, `.epub` or `.pdf` has that suffix, unless the name is the extension itself |
| Library.FormatOfTxt | hybrid_reader.py:142-147 | a name ending in `.txt` opens in the text reader, except the name `.txt` itself |
| Library.FormatOfEpub | hybrid_reader.py:142-149 | a name ending in `.epub` opens in the EPUB reader, except the name `.epub` itself |
| Library.FormatOfPdf | hybrid_reader.py:142-151 | a name ending in `.pdf` opens in the PDF reader, except the name `.pdf` itself |
| Library.FormatOfSupported | hybrid_reader.py:131-154 | a menu entry is rejected as unsupported exactly when it is named `.txt`, `.epub` or `.pdf` |
| Library.SelectionNumbering | hybrid_reader.py:137-140 | typed number k picks the k-th menu entry; 0 picks the last; the pick is always a supported listed name |
| Library.OnlySelectedBookChanges | hybrid_reader.py:144-157 | a save adds or overwrites only the selected book's bookmark, with the reader's return value |
| Library.MissingLibraryResetsBookmark | hybrid_reader.py:144-156 | without its library, an EPUB's or PDF's reader returns 0 (lines 68-70 and 101-103), so the book's bookmark is reset to 0 |
| Library.ReopenResumes | hybrid_reader.py:144-156 | a later session of the same book first displays the page or unit that was on screen when the reader was left |
| Library.BookmarkStaysValid | hybrid_reader.py:144-156 | a bookmark the reader can start from is replaced by one it can start from, so indexing the document at lines 86 and 113 cannot fail on it; a text bookmark is a multiple of 25 |
| Library.ReadingSession | hybrid_reader.py:127-158 | `main` as written saves exactly what `Outcome` specifies, and saves nothing when the menu is empty |

## Findings

| source | as written | input that shows it | evidently intended | confidence | as-written member | corrected member |
|---|---|---|---|---|---|---|
| hybrid_reader.py:37 | the page count is the line count divided by 25, rounded down, plus one | a file of 25 lines: the header reads "Page 1/2", and page 2 is empty and `n` never reaches it | the number of pages that hold a line, rounded up, and 1 for an empty file | medium; not executed | TextPager.LastCountedPageEmpty | TextPager.PageCountCountsReachablePages |

`TextPager.TotalPages` models the count the header prints. The page bounds in
`SessionProperties` and `ReadTxt` use the corrected `PageCount`; since
`PageCount` is at most `TotalPages`, they also bound the printed count.

## Left out

- Terminal output, screen clearing and prompts are left out. The model records which page is displayed (`Trace.shown`); it does not model the text printed.
- Keyboard input is a given sequence of lines. When it runs out, Python's `input()` raises `EOFError` and the program stops without saving. The model ends with `InputExhausted` and saves nothing.
- JSON loading and saving of the bookmarks file (`load_bookmarks`, `save_bookmarks`) are left out because they are file and library I/O. The bookmarks enter `main` as a map from names to natural numbers, and `main` returns the map it would save.
- Library.ReadingSession: bookmark values are naturals. A bookmarks file edited to hold a negative number or a non-number is not modelled.
- `readlines`, EPUB chapter extraction (ebooklib and BeautifulSoup) and PDF page access (PyMuPDF) are foreign calls. Their results are the inputs `lines`, `chapters` and `pages`, and the installed libraries are the flags of `Support`.
- `os.makedirs` and `os.listdir` are left out. The directory listing is an input sequence of names.
- The 3000-character truncation of a chapter only affects display, and it is left out.
- Fold.Lower: only ASCII `A`-`Z` are folded, because Python's full Unicode case mapping is not modelled. Both search and command reading use this fold.
- The program can crash in three ways, and the model does not model these crashes. It states their absence as preconditions:
  - `int(...)` fails to parse the typed book number. The model takes the number as an integer.
  - `books[choice]` is out of range. See `ValidSelection`.
  - An EPUB or PDF is opened at a bookmark outside the document, or the document is empty. See `StartOk` and the `requires` of `Browse`.
- The EPUB and PDF loops are one method, `UnitPager.Browse`, because their text is the same apart from the display line. `ReadEpub` and `ReadPdf` differ only in their library check.
