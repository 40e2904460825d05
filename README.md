# Protocol renamer — a Dafny model

`main.py` is a batch renamer for administrative PDFs. For every file
of a source directory whose name ends in `.pdf` it:

- reads the text of all pages, joined in page order with nothing in between;
- searches the text for the first protocol number that matches one fixed
  regular expression with three alternatives:
  - `NN/NNNNNN-N`, as in `10/003229-0`;
  - three capital letters and ten digits, as in `PIP1902094449`;
  - the literal `Protocolo:`, optional whitespace, then the first shape;
- copies the file into the destination directory, or into its
  `./naoEncontrado` subfolder:
  - when a protocol is found, the copy is named after the protocol with
    every non-word character removed, plus `.pdf`;
  - otherwise the copy keeps its original name and goes into the subfolder.

The model consists of these modules:

- `Chars`: the character classes `\d`, `[A-Z]`, `\s` and `\w`.
- `Pattern`: the three alternatives, stated as languages (`IsNumbered`,
  `IsCoded`, `IsLabelled`), and a scanning matcher (`MatchAt`, `FindFrom`,
  `Search`).
  - The matcher tries positions left to right and tries the alternatives in
    order at each position.
  - It is proved to return exactly the leftmost substring in the union of
    the three languages.
  - It returns nothing exactly when no substring matches.
- `Normalize`: `re.sub(r'\W', '', …)` as `Strip`, with what it does to each
  shape of match.
- `Paths`: two-argument `os.path.join`, `str.endswith` and a basename used
  to state where copies land.
- `Renamer`:
  - page-text assembly (`ExtractText`);
  - `encontrar_protocolo_no_pdf` (`FindProtocolInPdf`);
  - the per-file routing (`Decide`, `Target`);
  - the loop of `processar_pdfs` (`ProcessPdfs`), which returns the list of
    copies it would perform.

### How the model follows the code

- **A labelled match keeps its label.** `re.search(...).group(0)` returns the
  whole match, not the capture group. So text such as
  `Protocolo: 10/003229-0` yields the whole labelled string when the label
  comes first in the text. `\W` removal deletes only the colon and the
  spaces, so the copy is named `Protocolo100032290.pdf`, not
  `100032290.pdf`. The model keeps this behaviour (`Pattern.LabelledWins`,
  `Renamer.LabelledTarget`).
- **Truthiness of the result.** `if protocolo:` rejects both `None` and the
  empty string, and `Renamer.Target` tests both. `Pattern.Search` is proved
  never to return a match shorter than 11 characters, so the empty-string
  case cannot arise.
- **Character classes are ASCII.** `\d` is `0-9`, `\s` is space and
  `\t`..`\r`, `\w` is letters, digits and `_`. This is what `re.ASCII`
  would select. See "Left out" for the Unicode classes.
- **Whitespace backtracking.** A regex engine may backtrack into `\s*`. The
  model takes the greedy run only. `Pattern.LabelledEnd` proves that every
  labelled match ends after that greedy run, because a digit is never
  whitespace, so nothing is lost.

## Model

| member | source | states |
|---|---|---|
| `Pattern.SkipSpaces` | main.py:54 | `\s*` taken greedily: every character of the run is whitespace, and the character after it is not |
| `Pattern.MatchAt` | main.py:54 | the alternatives tried in order at one position: a result is a match of the pattern starting there; no result means that no end gives a match there |
| `Pattern.LabelledEnd` | main.py:54 | any `Protocolo:\s*NN/NNNNNN-N` match starts with the label and ends 11 characters after the greedy whitespace run, so the greedy run loses no match |
| `Pattern.ShapeAt` | main.py:54 | a match of each alternative has its own fixed first characters and its own end: digit and +11, a capital as second character and +13, `Pr` and run end + 11 |
| `Pattern.MatchUnique` | main.py:54 | at most one match starts at any position, so the order in which the alternatives are listed never changes what is found |
| `Pattern.FindFrom` | main.py:14 | the scan from a position returns a match at the first position where one starts, and no match starts earlier; no result means that no match starts at or after that position |
| `Pattern.Search` | main.py:14-16 | `group(0)` of `re.search`: a result is a match of the pattern at least 11 characters long; no result exactly when no substring of the text matches |
| `Pattern.SearchIsLeftmost` | main.py:14-16 | for every text, a match with nothing matching before its start is exactly what the search returns |
| `Pattern.LabelledWins` | main.py:14-16 | when the first match in the text is labelled, the returned string starts with `Protocolo:` and includes the label and whitespace |
| `Normalize.Strip` | main.py:33 | the result is no longer than the input and holds only word characters |
| `Normalize.StripAppend` | main.py:33 | removal works piecewise: stripping a concatenation is the concatenation of the stripped parts, in order |
| `Normalize.StripCounts` | main.py:33 | every word character is kept as often as it occurs; every other character is removed |
| `Normalize.StripFixedPoint` | main.py:33 | a string is unchanged exactly when it holds only word characters (both directions) |
| `Normalize.StripIdempotent` | main.py:33 | normalising twice is normalising once |
| `Normalize.StripNoWord` | main.py:33 | a string without word characters normalises to the empty string |
| `Normalize.StripNumbered` | main.py:33 | `NN/NNNNNN-N` becomes its nine digits, with the slash and the dash removed |
| `Normalize.StripCoded` | main.py:33 | `AAANNNNNNNNNN` is left unchanged |
| `Normalize.StripLabelled` | main.py:33 | a labelled match keeps the word `Protocolo` and loses the colon and whitespace, leaving 18 characters |
| `Normalize.StripLabelledDigits` | main.py:33 | a labelled match normalises to `Protocolo` followed by the nine digits of its identifier |
| `Normalize.StripProtocol` | main.py:31-36 | every search result becomes a non-empty stem of word characters of length 9, 13 or 18 |
| `Paths.Join` | main.py:37 | `os.path.join` of two parts: an absolute second part is returned unchanged; a relative one follows the first part, with a `/` in between exactly when the first part is non-empty and does not already end in `/` |
| `Paths.JoinBasename` | main.py:42 | joining a name without separators onto a directory gives a path whose last component is that name |
| `Renamer.PagesText` | main.py:9-11 | the length of the accumulated text is the sum of the page lengths |
| `Renamer.PagesTextEnds` | main.py:9-11 | the accumulated text opens with the first page's text and closes with the last page's text |
| `Renamer.PagesTextSplit` | main.py:9-11 | cutting the page list at any point cuts the accumulated text at the corresponding place |
| `Renamer.PageInPlace` | main.py:9-11 | every page's text sits between the text of the pages before it and the text of the pages after it, with no separator |
| `Renamer.ExtractText` | main.py:9-11 | the loop `text += page.extract_text()` yields the concatenation of all page texts in page order |
| `Renamer.SplitIdentifier` | main.py:9-14 | a protocol split across two pages at any point, with any text before and after it, is still found whole when no match starts before it |
| `Renamer.FindProtocolInPdf` | main.py:6-17 | returns the leftmost match in the document's text, which is a protocol; returns nothing exactly when the text holds no match |
| `Renamer.Target` | main.py:31-42 | `if protocolo:` routing: a found protocol gives a path ending in the normalised protocol plus `.pdf`; no protocol gives a path ending in the original name; a `.pdf` name always gets a `.pdf` target |
| `Renamer.Decide` | main.py:27-43 | a name yields an action exactly when it ends in `.pdf`; the action copies the file at the source directory joined with the name to the target routed by the search result of that file's text, a `.pdf` path |
| `Renamer.Plan` | main.py:26-43 | the loop's copies, as a function of the listing: one per `.pdf` name, each to a `.pdf` path |
| `Renamer.PdfNames` | main.py:26-27 | the names kept by the `.pdf` filter all end in `.pdf`, and there are no more of them than listed names |
| `Renamer.PdfNamesCounts` | main.py:26-27 | every `.pdf` name is processed as often as it is listed; no other name is processed |
| `Renamer.PlanOnePerPdf` | main.py:26-43 | there is exactly one copy per `.pdf` name, in listing order, and the k-th copy is the decision for the k-th `.pdf` name |
| `Renamer.ProcessPdfs` | main.py:19-44 | the loop of `processar_pdfs` performs exactly the copies of the plan for its listing |
| `Renamer.TargetWhenFound` | main.py:31-37 | a found protocol puts the copy directly in the destination; its name is the normalised protocol plus `.pdf`, a word-character stem of at least 9 characters |
| `Renamer.TargetWhenNotFound` | main.py:40-42 | without a protocol the copy goes to exactly the not-found folder `destination/./naoEncontrado` joined with the original file name, which is its last component |
| `Renamer.TargetsApart` | main.py:22-42 | a copy named after a protocol never has the same path as a copy placed in the not-found folder |
| `Renamer.LabelledTarget` | main.py:33-37 | a labelled match names the copy `Protocolo` followed by the nine digits and `.pdf` (e.g. `Protocolo100032290.pdf`) |

## Left out

- PDF reading. `PdfReader` and `extract_text` are not modelled. The texts
  of a document's pages are the input `document(path)`, and a page whose
  extraction fails or returns nothing is not modelled.
- File-system effects. `os.makedirs`, `shutil.copy` and `print` are not
  performed. `ProcessPdfs` returns the list of copies in order.
  - The model says nothing about overwriting. Two PDFs with the same
    protocol get the same target, and in the program the later copy
    replaces the earlier one.
  - The model does not check that the directories exist.
- Directory listing. `os.listdir` is the input `listing`. Its order is
  arbitrary in the program and is taken as given here.
  - Subdirectories whose names end in `.pdf` are treated like files, and
    the error the program would raise on them is not modelled.
  - Entries are assumed to hold no `/`, as `os.listdir` guarantees;
    `Renamer.TargetWhenNotFound` and `Renamer.TargetsApart` require this.
- Errors. Exceptions from `open`, `PdfReader` or `shutil.copy`, which abort
  the whole batch in the program, are not modelled.
- The regular expression as a parameter. `encontrar_protocolo_no_pdf` and
  `processar_pdfs` accept any pattern. The model fixes the one pattern the
  program passes (main.py:54) and does not model Python's general regex
  engine.
- Unicode character classes. Python's default `\d`, `\s` and `\w` also
  accept non-ASCII digits, spaces and letters; the model uses the ASCII
  classes. Python's default `\s` also matches the ASCII separators U+001C
  to U+001F, which the model does not treat as whitespace, so after
  `Protocolo:` such a separator ends the label match here.
- The script entry point. The `__main__` block (main.py:46-58) only fixes
  `./teste`, `./renomeados` and the pattern. Source and destination are
  parameters here.
- `os.path.join` with more than two parts, and platform-specific path
  rules. Only the two-part POSIX form that the program uses is modelled.
