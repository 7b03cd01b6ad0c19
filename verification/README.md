# Splitting the book's markdown into chapter files

`split-original-md.py` turns one large markdown document (`rust.md`) into
a `rust-book/` directory that pandoc builds into a PDF. The logic lives in
`split_content`. It cuts the document at every line that starts with
`## `, a second-level heading. The text before the first heading becomes
`chapters/01-introduction.md`. Each later section becomes its own chapter
file, numbered from 2, and its name is made from the heading's title. The
rest of the script makes directories, writes two constant files and
prints a message.

This project models `split_content` and proves what it does to a
document. It has four modules.

- `PyStr` (`py_str.dfy`) models the Python string operations the function
  uses: `str.strip()` with Python's exact whitespace set, taking the first
  line, `str.lower()`, `str.replace(' ', '-')`, and the filter
  `re.sub(r'[^a-z0-9\-]', '', ...)`.
- `DecimalFormat` (`decimal_format.dfy`) models `f"{i:02d}"`. It also
  reads back the number at the front of a name.
- `HeadingSplit` (`heading_split.dfy`) models
  `re.split(r'^## ', content, flags=re.MULTILINE)`. A match is a `## ` at
  the start of the text or right after a newline. After a match the scan
  resumes past the marker.
- `ChapterSplitter` (`chapter_splitter.dfy`) models `split_content`
  itself.
  - `Chapters(content)` is the list of (file name, contents) pairs the
    function writes, in write order.
  - `SplitContent` is the function's loop, written as a loop, and is
    proved to produce exactly `Chapters(content)`.
  - `WrittenFiles` is the directory left by those writes. A later
    `open(name, 'w')` replaces an earlier file of the same name.

Proved properties of the output:

- Splitting loses nothing: the first piece, then each later piece behind
  a restored `## `, is the original document.
- There is one file per heading plus the introduction, and each file is
  numbered by its position.
- No two files share a name, so no write replaces an earlier one.
- The introduction file is always written, even when the document opens
  with a heading.
- Each heading's file starts with `## ` followed by the heading's
  stripped title. Blanks after the marker are not kept: `##  Foo` comes
  back as `## Foo`.
- A heading with nothing but blanks after `## ` has an empty title. Its
  file is named `NN-md`, and the file's own `## ` line carries the first
  text of the section, usually the next paragraph.

The name filter runs over the whole file name, `.md` included. So every
heading's file is named `NN-titlemd`: the dot is deleted and nothing
takes its place, so `## Ownership` as the second section gives
`02-ownershipmd`. The model keeps this
behaviour as the code has it. The lemmas then show what follows:

- Of all the files written, only `01-introduction.md` matches the build
  script's `chapters/` glob `*.md`.
- With at most 98 headings, sorting the names gives document order.
- Chapter 100's name sorts before chapter 99's.

## Model

| member | source | states |
|---|---|---|
| PyStr.Strip | original-old-md-file/split-original-md.py:59 | The result is a slice of the input with only Python whitespace before and after it, and it neither starts nor ends with whitespace |
| PyStr.StripIdempotent | original-old-md-file/split-original-md.py:59 | Stripping a stripped string changes nothing |
| PyStr.StripOfPrefix | original-old-md-file/split-original-md.py:64 | Stripping a prefix of a string gives a prefix of the stripped string |
| PyStr.FirstLine | original-old-md-file/split-original-md.py:64 | `split('\n')[0]` is a prefix with no newline, ending at the first newline or at the end of the string |
| PyStr.Lower | original-old-md-file/split-original-md.py:66 | No ASCII capital letter is left after `lower()` |
| PyStr.LowerAppend | original-old-md-file/split-original-md.py:66 | Lowering a concatenation lowers each part |
| PyStr.ReplaceSpaces | original-old-md-file/split-original-md.py:66 | Same length; each space becomes `-` and every other character stays; no space remains |
| PyStr.ReplaceSpacesAppend | original-old-md-file/split-original-md.py:66 | Replacing in a concatenation replaces in each part |
| PyStr.KeepNameChars | original-old-md-file/split-original-md.py:67 | The filter never lengthens a string and leaves only `[a-z0-9-]` characters |
| PyStr.KeepNameCharsAppend | original-old-md-file/split-original-md.py:67 | Filtering a concatenation filters each part |
| PyStr.KeepNameCharsFixed | original-old-md-file/split-original-md.py:67 | The filter leaves a string unchanged if and only if every character is in `[a-z0-9-]` |
| PyStr.KeepNameCharsIdempotent | original-old-md-file/split-original-md.py:67 | Filtering twice is the same as filtering once |
| DecimalFormat.Decimal | original-old-md-file/split-original-md.py:66 | The decimal numeral is non-empty, made of digits, has no leading zero, and is one digit exactly below 10 |
| DecimalFormat.DecimalValue | original-old-md-file/split-original-md.py:66 | The numeral reads back as the number |
| DecimalFormat.ZeroPad2 | original-old-md-file/split-original-md.py:66 | `{i:02d}` gives at least two digits |
| DecimalFormat.ZeroPad2Value | original-old-md-file/split-original-md.py:66 | The padded numeral reads back as the number |
| DecimalFormat.ZeroPad2TwoDigits | original-old-md-file/split-original-md.py:66 | Below 100 the padded numeral is the tens digit, then the units digit |
| DecimalFormat.NumberOfPaddedPrefix | original-old-md-file/split-original-md.py:66 | A padded numeral followed by a non-digit reads back as the number |
| HeadingSplit.Split | original-old-md-file/split-original-md.py:54 | `sections = re.split(...)` is the split from position 0 and has at least one piece |
| HeadingSplit.SplitFrom | original-old-md-file/split-original-md.py:54 | `re.split` always returns at least one piece |
| HeadingSplit.JoinSplit | original-old-md-file/split-original-md.py:54 | The first piece, then each later piece behind a restored `## `, is the original document |
| HeadingSplit.SplitCount | original-old-md-file/split-original-md.py:54 | There is one more piece than there are line-start `## ` markers |
| HeadingSplit.NoSplitPointInPieces | original-old-md-file/split-original-md.py:54 | No piece has a line-start `## ` after its first character, and the first piece has none at all |
| HeadingSplit.SplitFirstPieceAgain | original-old-md-file/split-original-md.py:54 | Splitting the text before the first heading again gives that text as the only piece |
| HeadingSplit.FirstSplitPointFrom | original-old-md-file/split-original-md.py:54 | The result is the first match at or after the position, or the end of the text |
| HeadingSplit.FirstPieceIsPrefix | original-old-md-file/split-original-md.py:54-57 | `sections[0]` is the document up to its first line-start `## `, or all of it |
| HeadingSplit.ThirdLevelHeadingNeverSplitPoint | original-old-md-file/split-original-md.py:54 | Wherever `### ` stands in any document, the pattern does not match there |
| HeadingSplit.ThirdLevelHeadingNotSplit | original-old-md-file/split-original-md.py:54 | Example: `"a\n### b"` stays in one piece |
| HeadingSplit.LeadingHeadingEmptyFirstPiece | original-old-md-file/split-original-md.py:54-57 | In any document that starts with `## `, the first piece is empty |
| HeadingSplit.LeadingHeadingSplit | original-old-md-file/split-original-md.py:54 | Example: `"## ## x"` splits into `""` and `"## x"`, so a later piece can itself begin with `## ` |
| ChapterSplitter.HeadingTitle | original-old-md-file/split-original-md.py:64 | The title (first line, stripped) has no newline |
| ChapterSplitter.BlankHeadingLine | original-old-md-file/split-original-md.py:64-67 | A section whose first line is only whitespace has an empty title, and its file is named the padded number followed by `-md` |
| ChapterSplitter.TitleBeginsSection | original-old-md-file/split-original-md.py:64 | The title is a prefix of the stripped section |
| ChapterSplitter.MatchesMdGlob | original-old-md-file/split-original-md.py:40 | Definition: the build script's `*.md` pattern, applied to one name (no leading dot, ends in `.md`); used by `OnlyIntroMatchesGlob` |
| ChapterSplitter.ChapterName | original-old-md-file/split-original-md.py:66-67 | Definition: the name expression and the filter, as the source writes them; its form is proved in `ChapterNameShape` and `ChapterNameNumber` |
| ChapterSplitter.ChapterBody | original-old-md-file/split-original-md.py:71 | Definition: `## `, the stripped section, the page break; its form is proved in `HeadingChapterBody` |
| ChapterSplitter.HeadingChapter | original-old-md-file/split-original-md.py:62-71 | Definition: the file one loop iteration writes for a section and its number; `SplitContent` is proved to write exactly it |
| ChapterSplitter.ChaptersOf | original-old-md-file/split-original-md.py:56-71 | One file per section |
| ChapterSplitter.Enumerated | original-old-md-file/split-original-md.py:62 | `enumerate(later, start=index)` mapped by a function gives one result per element |
| ChapterSplitter.EnumeratedAt | original-old-md-file/split-original-md.py:62 | Result `k` is the function of element `k` and its number `index + k` |
| ChapterSplitter.Chapters | original-old-md-file/split-original-md.py:52-71 | As many files as `re.split` returned pieces |
| ChapterSplitter.ChapterAt | original-old-md-file/split-original-md.py:56-71 | File 0 is the introduction; file `k > 0` is section `k`'s chapter, numbered `k + 1` |
| ChapterSplitter.SplitContent | original-old-md-file/split-original-md.py:52-71 | The loop writes exactly the files `Chapters(content)` lists, in that order |
| ChapterSplitter.SlugPerCharacter | original-old-md-file/split-original-md.py:66-67 | Lowering, replacing spaces and filtering a title acts character by character, through the reference table `SlugChar` |
| ChapterSplitter.ChapterNameShape | original-old-md-file/split-original-md.py:66-67 | A heading's name is its padded number, `-`, the kept title characters, and `md` with the dot filtered away; every character is in `[a-z0-9-]` |
| ChapterSplitter.ChapterNameMissesGlob | original-old-md-file/split-original-md.py:66-67 | A heading's name never ends in `.md`, so the `*.md` glob of the build script never matches it |
| ChapterSplitter.IntroChapter | original-old-md-file/split-original-md.py:57-59 | The first file is `01-introduction.md` and holds the stripped text before the first heading, then the page break |
| ChapterSplitter.EmptyIntroStillWritten | original-old-md-file/split-original-md.py:57-59 | Every document that opens with `## `, whatever follows, still gets an introduction file, holding only the page break |
| ChapterSplitter.ChapterNumbers | original-old-md-file/split-original-md.py:62-66 | The number at the front of file `k`'s name is `k + 1`, and the name's first two characters are those of the padded `k + 1` |
| ChapterSplitter.ChapterNameNumber | original-old-md-file/split-original-md.py:66-67 | A heading's name starts with its number, and its first two characters are those of the padded number |
| ChapterSplitter.DistinctNames | original-old-md-file/split-original-md.py:62-67 | Any two files have different names |
| ChapterSplitter.OnlyIntroMatchesGlob | original-old-md-file/split-original-md.py:58-67 | A file's name matches `*.md` if and only if it is the introduction |
| ChapterSplitter.HeadingChapterName | original-old-md-file/split-original-md.py:62-67 | Section `k`'s name is the padded `k + 1`, `-`, the kept title characters and `md`; it uses only `[a-z0-9-]` |
| ChapterSplitter.HeadingChapterBody | original-old-md-file/split-original-md.py:70-71 | Section `k`'s file holds `## `, the stripped section and the page break, so it starts with `## ` and the title its name was made from |
| ChapterSplitter.NamesSortedInDocumentOrder | original-old-md-file/split-original-md.py:62-67 | With at most 99 sections, an earlier file's name sorts before every later one's |
| ChapterSplitter.LexLess | original-old-md-file/split-original-md.py:40 | Definition: code-point order on names, the order in which the shell lists the glob's matches in the C locale |
| ChapterSplitter.LexLessIrreflexive | original-old-md-file/split-original-md.py:40 | No name sorts before itself |
| ChapterSplitter.LexLessTransitive | original-old-md-file/split-original-md.py:40 | The order is transitive |
| ChapterSplitter.HundredthSortsBeforeNinetyNinth | original-old-md-file/split-original-md.py:66-67 | Chapter 100's name sorts before chapter 99's, whatever the titles |
| ChapterSplitter.WrittenFiles | original-old-md-file/split-original-md.py:58-71 | The directory after the writes; the last write's file holds what was written last |
| ChapterSplitter.WrittenFilesKeys | original-old-md-file/split-original-md.py:70 | After the writes, the directory holds a file for every name written and no other |
| ChapterSplitter.WrittenFilesDistinct | original-old-md-file/split-original-md.py:70-71 | When no name repeats, there are as many files as writes and each file holds what was written to it |
| ChapterSplitter.NoFileOverwritten | original-old-md-file/split-original-md.py:58-71 | `split_content` leaves one file per section in the directory, each holding exactly what was written to it |

## Left out

- `create_directory_structure` (lines 5-16) is not modelled: it only removes and creates directories on disk. The model takes the chapters directory to be empty before the writes.
- `create_metadata_yaml` (lines 18-35) is not modelled: it writes a constant text.
- `create_build_script` (lines 37-50) is not modelled: it writes a constant script and sets its mode. Only its `chapters/*.md` pattern (line 40) enters the model, as `MatchesMdGlob`.
- `main` (lines 73-92) is not modelled: it reads `rust.md`, calls the functions above and prints. `content` becomes a parameter.
- The file system calls in `split_content` are not modelled: `os.path.join`, `open` and `f.write`. Each write becomes a (name, contents) pair in the returned list, and the directory becomes the map `WrittenFiles`. The `chapters_dir` parameter is dropped. I/O errors are not modelled.
- PyStr.Lower: only ASCII letters, U+0130 and U+212A are lowered as Python lowers them. Other non-ASCII characters are left unchanged. The filter drops every such character, and every lowered form of one, so file names are unaffected.
- ChapterSplitter.LexLess: the shell sorts the glob's matches by the locale's collation. The model uses code-point order, as in the C locale.
- Python's `re` engine is modelled only for the fixed pattern `^## ` in multi-line mode, not in general.
- The pandoc build is not modelled.
