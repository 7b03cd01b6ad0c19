/**
 * `split_content`: cut the book's markdown source into one chapter file per
 * second-level heading, plus an introduction file for the text before the
 * first heading. The files the function writes are modelled as the list
 * of (file name, contents) pairs in the order it writes them.
 */
module ChapterSplitter {
  import opened PyStr
  import opened DecimalFormat
  import opened HeadingSplit

  /** One file written into the chapters directory. */
  datatype ChapterFile = ChapterFile(name: string, body: string)

  /** The file that receives the text before the first heading. */
  const IntroName: string := "01-introduction.md"

  /** The trailer every chapter ends with: a blank line, then pandoc's
      `\pagebreak` command on a line of its own. */
  const PageBreak: string := "\n\n\\pagebreak\n"

  /** The pattern of the build script's `chapters/` glob `*.md`, applied to a file
      name: any name not starting with a dot that ends in `.md`. */
  predicate MatchesMdGlob(name: string) {
    |name| >= 3 && name[|name| - 3..] == ".md" && name[0] != '.'
  }

  /** The title of a section: its first line, stripped. */
  function HeadingTitle(section: string): (title: string)
    ensures '\n' !in title
  {
    var line := FirstLine(section);
    StripWithoutNewline(line);
    Strip(line)
  }

  /** A heading line with nothing but blanks after `## ` has an empty
      title, so its file is named from its number alone (`NN-md`); the
      file's own `## ` line then carries the first text of the section. */
  lemma BlankHeadingLine(index: nat, section: string)
    requires forall k | 0 <= k < |FirstLine(section)| :: IsSpace(FirstLine(section)[k])
    ensures HeadingTitle(section) == ""
    ensures ChapterName(index, HeadingTitle(section)) == ZeroPad2(index) + "-md"
  {
    var line := FirstLine(section);
    assert TextStart(line, 0) == |line|;
    ChapterNameShape(index, "");
  }

  /** The title is where the stripped section begins. */
  lemma TitleBeginsSection(section: string)
    ensures |HeadingTitle(section)| <= |Strip(section)|
    ensures HeadingTitle(section) == Strip(section)[..|HeadingTitle(section)|]
  {
    StripOfPrefix(FirstLine(section), section);
  }

  lemma StripWithoutNewline(s: string)
    requires '\n' !in s
    ensures '\n' !in Strip(s)
  {
    var i: nat :| StrippedAt(s, i, Strip(s));
    assert forall k | 0 <= k < |Strip(s)| :: Strip(s)[k] == s[i + k];
  }

  /** The characters of a title that survive into the file name: lower-case
      ASCII letters, digits and `-` as they are, ASCII capitals lowered, a
      space as `-`, CAPITAL I WITH DOT ABOVE as `i`, the KELVIN SIGN as `k`;
      everything else (punctuation, tabs, other non-ASCII) is dropped. */
  function SlugChar(c: char): string {
    if IsNameChar(c) then [c]
    else if 'A' <= c <= 'Z' then [(c as int + 32) as char]
    else if c == ' ' then "-"
    else if c == '\U{130}' then "i"
    else if c == '\U{212A}' then "k"
    else []
  }

  /** The title part of a file name, character by character. */
  function SlugOf(title: string): string {
    if title == [] then [] else SlugChar(title[0]) + SlugOf(title[1..])
  }

  /** `f"{i:02d}-{title.lower().replace(' ', '-')}.md"` with every character
      outside `[a-z0-9-]` then removed. The filter runs over the whole name,
      `.md` included. */
  function ChapterName(index: nat, title: string): string {
    KeepNameChars(ZeroPad2(index) + "-" + ReplaceSpaces(Lower(title)) + ".md")
  }

  /** The contents of a heading's chapter file: the `## ` the split removed,
      the stripped section, the page break. */
  function ChapterBody(section: string): string {
    Marker + Strip(section) + PageBreak
  }

  /** The file written for the section numbered `index`. */
  function HeadingChapter(index: nat, section: string): ChapterFile {
    ChapterFile(ChapterName(index, HeadingTitle(section)), ChapterBody(section))
  }

  /** The files written for the list `re.split` returned, in the order they
      are written: the introduction from the first section, then one file
      per later section, numbered from 2. */
  function ChaptersOf(sections: seq<string>): (files: seq<ChapterFile>)
    requires |sections| >= 1
    ensures |files| == |sections|
  {
    [ChapterFile(IntroName, Strip(sections[0]) + PageBreak)] + Enumerated(sections[1..], 2, HeadingChapter)
  }

  /** `f` applied to each element of `later` and its number, counting
      from `index`: `[f(i, x) for i, x in enumerate(later, start=index)]`. */
  function Enumerated<T>(later: seq<string>, index: nat, f: (nat, string) -> T): (r: seq<T>)
    ensures |r| == |later|
  {
    if later == [] then [] else [f(index, later[0])] + Enumerated(later[1..], index + 1, f)
  }

  /** Element `k` is `f` of element `k` and its number `index + k`. */
  lemma {:induction false} EnumeratedAt<T>(later: seq<string>, index: nat, f: (nat, string) -> T, k: nat, n: nat)
    requires k < |later| && n == index + k
    ensures Enumerated(later, index, f)[k] == f(n, later[k])
  {
    if k > 0 {
      var rest := later[1..];
      assert Enumerated(later, index, f)[k] == Enumerated(rest, index + 1, f)[k - 1];
      EnumeratedAt(rest, index + 1, f, k - 1, n);
      assert rest[k - 1] == later[k];
    }
  }

  lemma TailAt<T>(s: seq<T>, j: nat, n: nat)
    requires n == j + 1 && n < |s|
    ensures s[1..][j] == s[n]
  {
  }

  /** Every file `split_content(content, ...)` writes, in order. */
  function Chapters(content: string): (files: seq<ChapterFile>)
    ensures |files| == |Split(content)|
  {
    ChaptersOf(Split(content))
  }

  /** The file at position `k` of the output. */
  lemma ChapterAt(sections: seq<string>, k: nat)
    requires k < |sections|
    ensures k == 0 ==> ChaptersOf(sections)[k] == ChapterFile(IntroName, Strip(sections[0]) + PageBreak)
    ensures k > 0 ==> ChaptersOf(sections)[k] == HeadingChapter(k + 1, sections[k])
  {
    if k > 0 {
      var later := sections[1..];
      EnumeratedAt(later, 2, HeadingChapter, k - 1, k + 1);
      TailAt(sections, k - 1, k);
    }
  }

  /** The loop of `split_content`: write the introduction, then, for each
      later section numbered from 2, work out its title and file name and
      write its contents. Each write appends to `written`. */
  method SplitContent(content: string) returns (written: seq<ChapterFile>)
    ensures written == Chapters(content)
  {
    var sections := Split(content);
    var intro := sections[0];
    written := [ChapterFile(IntroName, Strip(intro) + PageBreak)];
    ChapterAt(sections, 0);
    for k := 1 to |sections|
      invariant written == ChaptersOf(sections)[..k]
    {
      var i, section := k + 1, sections[k];
      var title := Strip(FirstLine(section));
      var filename := ZeroPad2(i) + "-" + ReplaceSpaces(Lower(title)) + ".md";
      filename := KeepNameChars(filename);
      ChapterAt(sections, k);
      TakeNext(ChaptersOf(sections), k, i);
      written := written + [ChapterFile(filename, Marker + Strip(section) + PageBreak)];
    }
  }

  lemma TakeNext<T>(s: seq<T>, k: nat, n: nat)
    requires n == k + 1 && n <= |s|
    ensures s[..n] == s[..k] + [s[k]]
  {
  }

  // ---------------------------------------------------------------------
  // File names

  /** The filter keeps exactly `SlugChar` of each character of a lowered,
      space-replaced title. */
  lemma {:induction false} SlugPerCharacter(title: string)
    ensures KeepNameChars(ReplaceSpaces(Lower(title))) == SlugOf(title)
  {
    if title != [] {
      var c := title[0];
      assert title == [c] + title[1..];
      LowerAppend([c], title[1..]);
      assert Lower([c]) == LowerChar(c);
      ReplaceSpacesAppend(LowerChar(c), Lower(title[1..]));
      KeepNameCharsAppend(ReplaceSpaces(LowerChar(c)), ReplaceSpaces(Lower(title[1..])));
      SlugPerCharacter(title[1..]);
      SlugCharIsFilteredLower(c);
    }
  }

  lemma SlugCharIsFilteredLower(c: char)
    ensures KeepNameChars(ReplaceSpaces(LowerChar(c))) == SlugChar(c)
  {
    if c == '\U{130}' {
      var l := LowerChar(c);
      assert ReplaceSpaces(l) == l;
      assert l == "i" + "\U{307}";
      KeepNameCharsAppend("i", "\U{307}");
    }
  }

  /** A heading's file name is its two-or-more-digit number, `-`, the
      surviving title characters, and `md`: the dot of `.md` is filtered
      away like any other character outside `[a-z0-9-]`. */
  lemma ChapterNameShape(index: nat, title: string)
    ensures ChapterName(index, title) == ZeroPad2(index) + "-" + SlugOf(title) + "md"
    ensures forall k | 0 <= k < |ChapterName(index, title)| :: IsNameChar(ChapterName(index, title)[k])
  {
    var d := ZeroPad2(index);
    var t := ReplaceSpaces(Lower(title));
    KeepNameCharsAppend(d + "-" + t, ".md");
    KeepNameCharsAppend(d + "-", t);
    KeepNameCharsAppend(d, "-");
    KeepNameCharsFixed(d);
    KeepNameCharsFixed("-");
    assert KeepNameChars(".md") == "md" by {
      KeepNameCharsAppend(".", "md");
      KeepNameCharsFixed("md");
    }
    SlugPerCharacter(title);
  }

  /** A heading's file name never ends in `.md`, so the build script's
      `chapters/` glob `*.md` never picks it up. */
  lemma ChapterNameMissesGlob(index: nat, title: string)
    ensures !MatchesMdGlob(ChapterName(index, title))
  {
    ChapterNameShape(index, title);
    var n := ChapterName(index, title);
    if |n| >= 3 {
      assert IsNameChar(n[|n| - 3]);
      assert n[|n| - 3..][0] == n[|n| - 3];
    }
  }

  // ---------------------------------------------------------------------
  // Properties of the files written

  /** The introduction file always comes first and is always written, even
      when there is no text before the first heading: it holds the stripped
      text up to the first line-start `## `, then the page break. */
  lemma IntroChapter(content: string)
    ensures |Chapters(content)| >= 1
    ensures Chapters(content)[0].name == IntroName && MatchesMdGlob(IntroName)
    ensures Chapters(content)[0].body == Strip(content[..FirstSplitPointFrom(content, 0)]) + PageBreak
  {
    FirstPieceIsPrefix(content);
  }

  /** A document that opens with a heading still gets an introduction file,
      holding only the page break. */
  lemma EmptyIntroStillWritten(rest: string)
    ensures Chapters(Marker + rest)[0] == ChapterFile(IntroName, PageBreak)
  {
    var s := Marker + rest;
    assert s[..|Marker|] == Marker;
    LeadingHeadingEmptyFirstPiece(s);
    ChapterAt(Split(s), 0);
    assert Strip("") == "" by {
      var i: nat :| StrippedAt("", i, Strip(""));
    }
  }

  /** Every file name starts with its position in the output, counted
      from 1, so the chapters are numbered 1, 2, 3, ... with no gaps and
      each heading's number is one more than the previous one's. The first
      two characters of a name are those of its padded number. */
  lemma ChapterNumbers(sections: seq<string>, k: nat)
    requires k < |sections|
    ensures LeadingNumber(ChaptersOf(sections)[k].name) == k + 1
    ensures |ChaptersOf(sections)[k].name| >= 2
    ensures ChaptersOf(sections)[k].name[..2] == ZeroPad2(k + 1)[..2]
  {
    if k == 0 {
      IntroFileNumber(sections);
    } else {
      HeadingFileNumber(sections, k);
    }
  }

  lemma IntroFileNumber(sections: seq<string>)
    requires |sections| >= 1
    ensures LeadingNumber(ChaptersOf(sections)[0].name) == 1
    ensures |ChaptersOf(sections)[0].name| >= 2
    ensures ChaptersOf(sections)[0].name[..2] == ZeroPad2(1)[..2]
  {
    ChapterAt(sections, 0);
    IntroNameNumber();
  }

  lemma HeadingFileNumber(sections: seq<string>, k: nat)
    requires 1 <= k < |sections|
    ensures LeadingNumber(ChaptersOf(sections)[k].name) == k + 1
    ensures |ChaptersOf(sections)[k].name| >= 2
    ensures ChaptersOf(sections)[k].name[..2] == ZeroPad2(k + 1)[..2]
  {
    ChapterAt(sections, k);
    ChapterNameNumber(k + 1, HeadingTitle(sections[k]));
  }

  lemma IntroNameNumber()
    ensures LeadingNumber(IntroName) == 1
    ensures IntroName[..2] == ZeroPad2(1)
  {
    var rest := "introduction.md";
    assert ZeroPad2(1) == "01" by {
      ZeroPad2TwoDigits(1);
      assert DigitChar(0) == '0' && DigitChar(1) == '1';
    }
    assert IntroName == ZeroPad2(1) + ['-'] + rest;
    assert IntroName[..2] == ZeroPad2(1);
    NumberOfPaddedPrefix(1, '-', rest);
  }

  lemma ChapterNameNumber(index: nat, title: string)
    ensures LeadingNumber(ChapterName(index, title)) == index
    ensures |ChapterName(index, title)| >= 2 && ChapterName(index, title)[..2] == ZeroPad2(index)[..2]
  {
    var d, rest := ZeroPad2(index), SlugOf(title) + "md";
    assert ChapterName(index, title) == d + ['-'] + rest by {
      ChapterNameShape(index, title);
    }
    NumberOfPaddedPrefix(index, '-', rest);
    assert (d + ['-'] + rest)[..2] == d[..2];
  }

  /** No two files share a name, so no write replaces an earlier one. */
  lemma DistinctNames(sections: seq<string>, j: nat, k: nat)
    requires j < k < |sections|
    ensures ChaptersOf(sections)[j].name != ChaptersOf(sections)[k].name
  {
    ChapterNumbers(sections, j);
    ChapterNumbers(sections, k);
  }

  /** Of all the files written, exactly the introduction matches the build
      script's `chapters/` glob `*.md`. */
  lemma OnlyIntroMatchesGlob(sections: seq<string>, k: nat)
    requires k < |sections|
    ensures MatchesMdGlob(ChaptersOf(sections)[k].name) <==> k == 0
  {
    ChapterAt(sections, k);
    if k > 0 {
      ChapterNameMissesGlob(k + 1, HeadingTitle(sections[k]));
    }
  }

  /** A heading's file is named from its number and its title, and the name
      uses only `[a-z0-9-]`. */
  lemma HeadingChapterName(sections: seq<string>, k: nat)
    requires 1 <= k < |sections|
    ensures ChaptersOf(sections)[k].name
      == ZeroPad2(k + 1) + "-" + SlugOf(HeadingTitle(sections[k])) + "md"
    ensures forall c | c in ChaptersOf(sections)[k].name :: IsNameChar(c)
  {
    ChapterAt(sections, k);
    ChapterNameShape(k + 1, HeadingTitle(sections[k]));
  }

  /** A heading's file starts with the heading line put back: `## `, then the
      title its name was made from. */
  lemma HeadingChapterBody(sections: seq<string>, k: nat)
    requires 1 <= k < |sections|
    ensures ChaptersOf(sections)[k].body == Marker + Strip(sections[k]) + PageBreak
    ensures var title := HeadingTitle(sections[k]);
      |Marker + title| <= |ChaptersOf(sections)[k].body|
      && ChaptersOf(sections)[k].body[..|Marker + title|] == Marker + title
  {
    ChapterAt(sections, k);
    BodyStartsWithTitle(sections[k]);
  }

  lemma BodyStartsWithTitle(section: string)
    ensures |Marker + HeadingTitle(section)| <= |ChapterBody(section)|
    ensures ChapterBody(section)[..|Marker + HeadingTitle(section)|] == Marker + HeadingTitle(section)
  {
    TitleBeginsSection(section);
    PrefixOfConcat(Marker, Strip(section), PageBreak, HeadingTitle(section));
  }

  lemma PrefixOfConcat<T>(a: seq<T>, b: seq<T>, c: seq<T>, p: seq<T>)
    requires |p| <= |b| && p == b[..|p|]
    ensures |a + p| <= |a + b + c| && (a + b + c)[..|a + p|] == a + p
  {
    assert (a + b + c)[..|a + p|] == a + b[..|p|];
  }

  // ---------------------------------------------------------------------
  // Order of the names

  /** Code-point lexicographic order: the order in which a shell sorts the
      names a glob expands to in the C locale. */
  predicate LexLess(a: string, b: string)
    decreases |a|
  {
    b != [] && (a == [] || a[0] < b[0] || (a[0] == b[0] && LexLess(a[1..], b[1..])))
  }

  /** No name sorts before itself. */
  lemma {:induction false} LexLessIrreflexive(a: string)
    ensures !LexLess(a, a)
    decreases |a|
  {
    if a != [] {
      LexLessIrreflexive(a[1..]);
    }
  }

  /** The order is transitive, so it sorts any list of names consistently. */
  lemma {:induction false} LexLessTransitive(a: string, b: string, c: string)
    requires LexLess(a, b) && LexLess(b, c)
    ensures LexLess(a, c)
    decreases |a|
  {
    if a != [] && a[0] == b[0] && b[0] == c[0] {
      LexLessTransitive(a[1..], b[1..], c[1..]);
    }
  }

  lemma TwoDigitOrder(a: nat, b: nat, x: string, y: string)
    requires a < b < 100
    requires |x| >= 2 && x[..2] == ZeroPad2(a)[..2]
    requires |y| >= 2 && y[..2] == ZeroPad2(b)[..2]
    ensures LexLess(x, y)
  {
    ZeroPad2TwoDigits(a);
    ZeroPad2TwoDigits(b);
    assert x[0] == DigitChar(a / 10) && x[1] == DigitChar(a % 10);
    assert y[0] == DigitChar(b / 10) && y[1] == DigitChar(b % 10);
    if a / 10 == b / 10 {
      assert a % 10 < b % 10;
      assert x[1..][0] < y[1..][0];
    }
  }

  /** With at most 98 headings every number has two digits, and sorting
      the names puts the files back in document order. */
  lemma NamesSortedInDocumentOrder(sections: seq<string>, j: nat, k: nat)
    requires j < k < |sections| <= 99
    ensures LexLess(ChaptersOf(sections)[j].name, ChaptersOf(sections)[k].name)
  {
    ChapterNumbers(sections, j);
    ChapterNumbers(sections, k);
    TwoDigitOrder(j + 1, k + 1, ChaptersOf(sections)[j].name, ChaptersOf(sections)[k].name);
  }

  /** From the 99th heading on, the order breaks: chapter 100's name sorts
      before chapter 99's. */
  lemma HundredthSortsBeforeNinetyNinth(t: string, u: string)
    ensures LexLess(ChapterName(100, t), ChapterName(99, u))
  {
    ChapterNameShape(100, t);
    ChapterNameShape(99, u);
    assert ZeroPad2(100) == "100" by {
      assert Decimal(100) == Decimal(10) + [DigitChar(0)];
      assert Decimal(10) == Decimal(1) + [DigitChar(0)];
    }
    assert ChapterName(100, t)[0] == '1';
    assert ChapterName(99, u)[0] == '9';
  }

  // ---------------------------------------------------------------------
  // The chapters directory after the writes

  /** The directory (empty beforehand) after writing `writes` in order with
      `open(name, 'w')`: a later write to a name replaces an earlier one. */
  function WrittenFiles(writes: seq<ChapterFile>): (dir: map<string, string>)
    ensures writes != [] ==>
      writes[|writes| - 1].name in dir && dir[writes[|writes| - 1].name] == writes[|writes| - 1].body
  {
    if writes == [] then map[]
    else
      var last := writes[|writes| - 1];
      WrittenFiles(writes[..|writes| - 1])[last.name := last.body]
  }

  /** The directory holds a file for every name written and no other. */
  lemma {:induction false} WrittenFilesKeys(writes: seq<ChapterFile>)
    ensures WrittenFiles(writes).Keys == set k | 0 <= k < |writes| :: writes[k].name
  {
    if writes != [] {
      var init := writes[..|writes| - 1];
      var last := writes[|writes| - 1];
      WrittenFilesKeys(init);
      var names0 := set k | 0 <= k < |init| :: init[k].name;
      assert WrittenFiles(writes).Keys == names0 + {last.name};
      forall k | 0 <= k < |init|
        ensures init[k] == writes[k]
      {
      }
    }
  }

  /** When no name is written twice, every file keeps what was written to
      it, and there are as many files as writes. */
  lemma {:induction false} WrittenFilesDistinct(writes: seq<ChapterFile>)
    requires forall j, k | 0 <= j < k < |writes| :: writes[j].name != writes[k].name
    ensures |WrittenFiles(writes)| == |writes|
    ensures forall k | 0 <= k < |writes| ::
      writes[k].name in WrittenFiles(writes) && WrittenFiles(writes)[writes[k].name] == writes[k].body
  {
    if writes != [] {
      var init := writes[..|writes| - 1];
      var last := writes[|writes| - 1];
      WrittenFilesDistinct(init);
      WrittenFilesKeys(init);
      var m0 := WrittenFiles(init);
      var m := WrittenFiles(writes);
      assert m == m0[last.name := last.body];
      assert last.name !in m0 by {
        forall k | 0 <= k < |init|
          ensures init[k].name != last.name
        {
          assert init[k] == writes[k];
        }
      }
      forall k | 0 <= k < |writes|
        ensures writes[k].name in m && m[writes[k].name] == writes[k].body
      {
        if k < |init| {
          assert writes[k] == init[k];
        }
      }
    }
  }

  /** Every file `split_content` writes ends up in the directory with the
      contents written to it: one file per section, none overwritten. */
  lemma NoFileOverwritten(sections: seq<string>)
    requires |sections| >= 1
    ensures WrittenFiles(ChaptersOf(sections)).Keys
      == set k | 0 <= k < |sections| :: ChaptersOf(sections)[k].name
    ensures |WrittenFiles(ChaptersOf(sections))| == |sections|
    ensures forall k | 0 <= k < |sections| ::
      ChaptersOf(sections)[k].name in WrittenFiles(ChaptersOf(sections))
      && WrittenFiles(ChaptersOf(sections))[ChaptersOf(sections)[k].name] == ChaptersOf(sections)[k].body
  {
    var files := ChaptersOf(sections);
    forall j, k | 0 <= j < k < |files|
      ensures files[j].name != files[k].name
    {
      DistinctNames(sections, j, k);
    }
    WrittenFilesKeys(files);
    WrittenFilesDistinct(files);
  }
}
