/** The document registry of lib/docs.ts: file paths to slugs, lookup of a
    document by slug with its table of contents and title, and the
    previous/next links. The directory walk and the front-matter parser are
    not modelled: a file is given as its path relative to the documentation
    directory, its body after the front matter, and its front-matter title
    and description. */
module Docs {
  import opened Text
  import opened Navigation

  /** `path.sep` (POSIX). */
  const PathSep: char := '/'

  /** A markdown source file as the registry sees it. */
  datatype SourceFile = SourceFile(relativePath: string, content: string, title: Option<string>, description: Option<string>)

  datatype TocItem = TocItem(id: string, text: string, level: int)

  datatype Doc = Doc(slug: seq<string>, title: string, description: Option<string>, content: string, toc: seq<TocItem>)

  datatype NavLink = NavLink(title: string, href: string)

  datatype DocNavigation = DocNavigation(prev: Option<NavLink>, next: Option<NavLink>)

  // ---------------------------------------------------------------------
  // Paths to slugs
  // ---------------------------------------------------------------------

  /** A markdown file: its path ends in `.md` or `.mdx`. */
  predicate IsMarkdownFile(path: string) {
    EndsWith(path, ".md") || EndsWith(path, ".mdx")
  }

  /** `.replace(/\.mdx?$/, '')`: drops one trailing `.md` or `.mdx`. */
  function StripMarkdownExtension(path: string): (r: string)
    ensures EndsWith(path, ".mdx") ==> |r| == |path| - 4
    ensures !EndsWith(path, ".mdx") && EndsWith(path, ".md") ==> |r| == |path| - 3
    ensures !IsMarkdownFile(path) ==> r == path
  {
    if EndsWith(path, ".mdx") then path[..|path| - 4]
    else if EndsWith(path, ".md") then path[..|path| - 3]
    else path
  }

  /** The number of decimal digits at the start of `s`. */
  function LeadingDigits(s: string): (k: nat)
    ensures k <= |s|
    ensures forall i :: 0 <= i < k ==> IsDigit(s[i])
    ensures k < |s| ==> !IsDigit(s[k])
  {
    if |s| > 0 && IsDigit(s[0]) then 1 + LeadingDigits(s[1..]) else 0
  }

  /** `.replace(/^\d+-/, '')`: drops one leading run of digits followed by a hyphen. */
  function StripOrderPrefix(segment: string): string {
    var k := LeadingDigits(segment);
    if 0 < k < |segment| && segment[k] == '-' then segment[k + 1..] else segment
  }

  /** The slug of a file: extension dropped, split on the separator, and the
      ordering prefix dropped from every segment. */
  function PathToSlug(path: string): (slug: seq<string>)
    ensures |slug| >= 1
  {
    StripOrderPrefixes(Split(StripMarkdownExtension(path), PathSep))
  }

  /** The ordering prefix dropped from each segment, in order. */
  function StripOrderPrefixes(segments: seq<string>): (r: seq<string>)
    ensures |r| == |segments|
    ensures forall i :: 0 <= i < |segments| ==> r[i] == StripOrderPrefix(segments[i])
  {
    if segments == [] then [] else [StripOrderPrefix(segments[0])] + StripOrderPrefixes(segments[1..])
  }

  /** One ordering prefix `<digits>-` is dropped, and only one. */
  lemma StripOrderPrefixOnce(digits: string, rest: string)
    requires |digits| > 0 && forall i :: 0 <= i < |digits| ==> IsDigit(digits[i])
    ensures StripOrderPrefix(digits + "-" + rest) == rest
  {
    var s := digits + "-" + rest;
    LeadingDigitsOfPrefix(digits, "-" + rest);
    assert s == digits + ("-" + rest);
    assert s[|digits| + 1..] == rest;
  }

  lemma {:induction false} LeadingDigitsOfPrefix(digits: string, rest: string)
    requires forall i :: 0 <= i < |digits| ==> IsDigit(digits[i])
    requires rest == [] || !IsDigit(rest[0])
    ensures LeadingDigits(digits + rest) == |digits|
  {
    if |digits| > 0 {
      assert (digits + rest)[1..] == digits[1..] + rest;
      LeadingDigitsOfPrefix(digits[1..], rest);
    }
  }

  /** A segment that does not begin with digits and a hyphen is kept as it is. */
  lemma StripOrderPrefixKeeps(segment: string)
    requires segment == [] || !IsDigit(segment[0])
    ensures StripOrderPrefix(segment) == segment
  {
  }

  /** A `.md` or `.mdx` ending is a markdown file's, and it is what is stripped. */
  lemma ExtensionStripped(base: string, mdx: bool)
    ensures var path := base + (if mdx then ".mdx" else ".md");
            IsMarkdownFile(path) && StripMarkdownExtension(path) == base
  {
    var ext := if mdx then ".mdx" else ".md";
    var path := base + ext;
    assert path[|path| - |ext|..] == ext;
    assert path[..|path| - |ext|] == base;
    if !mdx {
      assert !EndsWith(path, ".mdx") by {
        if |path| >= 4 {
          assert path[|path| - 4..][1] == path[|path| - 3] == '.';
        }
      }
    }
  }

  /** A markdown file at `dirs/name.md(x)` has one slug segment per path
      segment, each with its ordering prefix dropped. */
  lemma SlugOfPath(segments: seq<string>, mdx: bool)
    requires |segments| >= 1
    requires forall i :: 0 <= i < |segments| ==> PathSep !in segments[i]
    ensures var path := Join(segments, "/") + (if mdx then ".mdx" else ".md");
            IsMarkdownFile(path)
            && PathToSlug(path) == StripOrderPrefixes(segments)
  {
    ExtensionStripped(Join(segments, "/"), mdx);
    SplitJoin(segments, PathSep);
  }

  /** The markdown files among the files found, in order. */
  function MarkdownFiles(files: seq<string>): seq<string> {
    if files == [] then []
    else (if IsMarkdownFile(files[0]) then [files[0]] else []) + MarkdownFiles(files[1..])
  }

  /** The slug of each path, in order. */
  function SlugsOf(paths: seq<string>): seq<seq<string>> {
    if paths == [] then [] else [PathToSlug(paths[0])] + SlugsOf(paths[1..])
  }

  /** `getAllDocSlugs`, given the files found under the documentation
      directory: the slug of every markdown file is listed, and every slug
      listed is the slug of a markdown file. */
  function AllDocSlugs(files: seq<string>): (r: seq<seq<string>>)
    ensures |r| <= |files|
    ensures forall f :: f in files && IsMarkdownFile(f) ==> PathToSlug(f) in r
    ensures forall s :: s in r ==> exists f :: f in files && IsMarkdownFile(f) && s == PathToSlug(f)
  {
    MarkdownFilesMembers(files);
    SlugsOfPointwise(MarkdownFiles(files));
    SlugsOfMembers(MarkdownFiles(files));
    SlugsOf(MarkdownFiles(files))
  }

  /** The slugs of some paths are exactly the slugs of those paths. */
  lemma {:induction false} SlugsOfMembers(paths: seq<string>)
    ensures forall f :: f in paths ==> PathToSlug(f) in SlugsOf(paths)
    ensures forall s :: s in SlugsOf(paths) ==> exists f :: f in paths && s == PathToSlug(f)
  {
    if paths != [] {
      var rest := paths[1..];
      SlugsOfMembers(rest);
      var r := SlugsOf(rest);
      assert SlugsOf(paths) == [PathToSlug(paths[0])] + r;
      assert paths == [paths[0]] + rest;
      forall f | f in paths ensures PathToSlug(f) in SlugsOf(paths) {
        if f != paths[0] {
          assert f in rest;
        }
      }
      forall s | s in SlugsOf(paths) ensures exists f :: f in paths && s == PathToSlug(f) {
        if s in r {
          var f :| f in rest && s == PathToSlug(f);
          assert f in paths;
        } else {
          assert paths[0] in paths;
        }
      }
    }
  }

  /** The markdown files are exactly the files with a `.md` or `.mdx` ending,
      and when every file has one, all of them are kept in order. */
  lemma {:induction false} MarkdownFilesMembers(files: seq<string>)
    ensures forall f :: f in MarkdownFiles(files) <==> f in files && IsMarkdownFile(f)
    ensures |MarkdownFiles(files)| <= |files|
    ensures (forall i :: 0 <= i < |files| ==> IsMarkdownFile(files[i])) ==> MarkdownFiles(files) == files
  {
    if files != [] {
      var m := MarkdownFiles(files[1..]);
      MarkdownFilesMembers(files[1..]);
      assert files == [files[0]] + files[1..];
      if IsMarkdownFile(files[0]) {
        assert MarkdownFiles(files) == [files[0]] + m;
      } else {
        assert MarkdownFiles(files) == m;
      }
      assert forall i :: 1 <= i < |files| ==> files[i] == files[1..][i - 1];
    }
  }

  /** There is one slug per path, and the `i`-th slug is that of the `i`-th path. */
  lemma {:induction false} SlugsOfPointwise(paths: seq<string>)
    ensures |SlugsOf(paths)| == |paths|
    ensures forall i :: 0 <= i < |paths| ==> SlugsOf(paths)[i] == PathToSlug(paths[i])
  {
    if paths != [] {
      SlugsOfPointwise(paths[1..]);
    }
  }

  // ---------------------------------------------------------------------
  // The table of contents
  // ---------------------------------------------------------------------

  /** The line starts with exactly `k` `#` characters followed by a whitespace character. */
  predicate HashesThenSpace(line: string, k: nat) {
    k < |line| && (forall i :: 0 <= i < k ==> line[i] == '#') && IsSpace(line[k])
  }

  /** `line.match(/^#{2,3}\s/)`. */
  predicate IsTocHeading(line: string) {
    HashesThenSpace(line, 2) || HashesThenSpace(line, 3)
  }

  /** The number of `#` characters at the start of `s` (the length of `/^#+/`'s match). */
  function LeadingHashes(s: string): (k: nat)
    ensures k <= |s|
    ensures forall i :: 0 <= i < k ==> s[i] == '#'
    ensures k < |s| ==> s[k] != '#'
  {
    if |s| > 0 && s[0] == '#' then 1 + LeadingHashes(s[1..]) else 0
  }

  /** `line.match(/^#+/)?.[0].length || 2`. */
  function HeadingLevel(line: string): int {
    var k := LeadingHashes(line);
    if k > 0 then k else 2
  }

  /** `line.replace(/^#+\s/, '')`. */
  function HeadingText(line: string): string {
    var k := LeadingHashes(line);
    if 0 < k < |line| && IsSpace(line[k]) then line[k + 1..] else line
  }

  /** The characters `/[\w\s-]/` accepts. */
  predicate IsIdChar(c: char) {
    IsWordChar(c) || IsSpace(c) || c == '-'
  }

  /** `.replace(/[^\w\s-]/g, '')`: what is left are characters of the input
      that the class accepts. */
  function KeepIdChars(s: string): (r: string)
    ensures |r| <= |s|
    ensures forall c :: c in r ==> c in s && IsIdChar(c)
  {
    if s == [] then [] else (if IsIdChar(s[0]) then [s[0]] else []) + KeepIdChars(s[1..])
  }

  /** `.replace(/\s+/g, '-')`: each run of whitespace becomes one hyphen, so
      no whitespace is left and every other character comes from the input. */
  function HyphenateSpaces(s: string): (r: string)
    ensures |r| <= |s|
    ensures forall c :: c in r ==> c == '-' || (c in s && !IsSpace(c))
    decreases |s|
  {
    if s == [] then []
    else if IsSpace(s[0]) then
      var t := TrimStart(s);
      SuffixMembers(s, t);
      "-" + HyphenateSpaces(t)
    else [s[0]] + HyphenateSpaces(s[1..])
  }

  /** The characters of a suffix are characters of the string. */
  lemma SuffixMembers(s: string, t: string)
    requires |t| <= |s| && t == s[|s| - |t|..]
    ensures forall c :: c in t ==> c in s
  {
    forall c | c in t ensures c in s {
      var i :| 0 <= i < |t| && t[i] == c;
      assert s[|s| - |t| + i] == c;
    }
  }

  /** The number of hyphens in the run starting at `i`. */
  function HyphensFrom(s: string, i: nat): (k: nat)
    requires i <= |s|
    ensures i + k <= |s|
    ensures forall j :: i <= j < i + k ==> s[j] == '-'
    ensures i + k < |s| ==> s[i + k] != '-'
    decreases |s| - i
  {
    if i < |s| && s[i] == '-' then 1 + HyphensFrom(s, i + 1) else 0
  }

  /** The number of hyphens in the run ending just before `j`. */
  function HyphensBefore(s: string, j: nat): (k: nat)
    requires j <= |s|
    ensures k <= j
    ensures forall i :: j - k <= i < j ==> s[i] == '-'
    ensures k < j ==> s[j - k - 1] != '-'
  {
    if j > 0 && s[j - 1] == '-' then 1 + HyphensBefore(s, j - 1) else 0
  }

  /** `/^-+/` removed: the leading run of hyphens is dropped. */
  function TrimLeadingHyphens(s: string): string {
    s[HyphensFrom(s, 0)..]
  }

  /** `/-+$/` removed: the trailing run of hyphens is dropped. */
  function TrimTrailingHyphens(s: string): string {
    s[..|s| - HyphensBefore(s, |s|)]
  }

  /** The characters an id may hold: `[a-z0-9_-]`. */
  predicate IsAnchorChar(c: char) {
    ('a' <= c <= 'z') || IsDigit(c) || c == '_' || c == '-'
  }

  /** An anchor id: only anchor characters, neither starting nor ending with a hyphen. */
  predicate IsAnchorId(id: string) {
    (forall c :: c in id ==> IsAnchorChar(c))
    && (id == [] || (id[0] != '-' && id[|id| - 1] != '-'))
  }

  /** The heading id: `.toLowerCase()`, then everything but `[\w\s-]` removed,
      then each whitespace run turned into a hyphen, then `/^-+|-+$/g` removed. */
  function HeadingId(text: string): (id: string)
    ensures IsAnchorId(id)
  {
    var h := HyphenateSpaces(KeepIdChars(ToLower(text)));
    HyphenatedChars(text);
    TrimmedHyphensAnchor(h);
    TrimTrailingHyphens(TrimLeadingHyphens(h))
  }

  /** Before the hyphens at the ends are trimmed, the text holds only anchor characters. */
  lemma HyphenatedChars(text: string)
    ensures forall c :: c in HyphenateSpaces(KeepIdChars(ToLower(text))) ==> IsAnchorChar(c)
  {
    var lower := ToLower(text);
    var kept := KeepIdChars(lower);
    forall c | c in HyphenateSpaces(kept) ensures IsAnchorChar(c) {
      if c != '-' {
        assert c in kept && !IsSpace(c);
        var j :| 0 <= j < |lower| && lower[j] == c;
      }
    }
  }

  /** Text of anchor characters with its hyphens at both ends trimmed is an anchor id. */
  lemma TrimmedHyphensAnchor(h: string)
    requires forall c :: c in h ==> IsAnchorChar(c)
    ensures IsAnchorId(TrimTrailingHyphens(TrimLeadingHyphens(h)))
  {
    var a := HyphensFrom(h, 0);
    var t := h[a..];
    var b := HyphensBefore(t, |t|);
    var id := t[..|t| - b];
    assert TrimTrailingHyphens(TrimLeadingHyphens(h)) == id;
    forall c | c in id ensures IsAnchorChar(c) {
      var i :| 0 <= i < |id| && id[i] == c;
      assert h[a + i] == c;
    }
    if id != [] {
      assert id[0] == h[a];
      assert id[|id| - 1] == t[|t| - b - 1];
    }
  }

  function TocItemOf(line: string): TocItem {
    var text := HeadingText(line);
    TocItem(HeadingId(text), text, HeadingLevel(line))
  }

  /** The heading lines, in document order. */
  function HeadingLines(lines: seq<string>): seq<string> {
    if lines == [] then []
    else (if IsTocHeading(lines[0]) then [lines[0]] else []) + HeadingLines(lines[1..])
  }

  /** The item of each heading line, in order (`.map(...)`). */
  function TocItems(headings: seq<string>): seq<TocItem> {
    MapSeq(TocItemOf, headings)
  }

  /** `xs.map(f)`. */
  function MapSeq<A, B>(f: A -> B, xs: seq<A>): (r: seq<B>)
    ensures |r| == |xs| && forall i :: 0 <= i < |xs| ==> r[i] == f(xs[i])
  {
    seq(|xs|, i requires 0 <= i < |xs| => f(xs[i]))
  }

  /** Mapping a list with a head: the head's image, then the images of the rest. */
  lemma MapSeqCons<A, B>(f: A -> B, x: A, xs: seq<A>)
    ensures MapSeq(f, [x] + xs) == [f(x)] + MapSeq(f, xs)
  {
    var a, b := MapSeq(f, [x] + xs), [f(x)] + MapSeq(f, xs);
    forall i | 0 <= i < |a| ensures a[i] == b[i] {
      if i > 0 {
        assert ([x] + xs)[i] == xs[i - 1];
      }
    }
  }

  /** The TOC of a document body: its lines split on `\n`, the heading lines
      kept, each made an item; every item has level 2 or 3 and an anchor id. */
  function ExtractToc(content: string): (r: seq<TocItem>)
    ensures forall item :: item in r ==> (item.level == 2 || item.level == 3) && IsAnchorId(item.id)
  {
    var lines := Split(content, '\n');
    HeadingLinesMembers(lines);
    HeadingItemLevels(HeadingLines(lines));
    TocItems(HeadingLines(lines))
  }

  /** The items of heading lines have level 2 or 3 and an anchor id. */
  lemma HeadingItemLevels(headings: seq<string>)
    requires forall l :: l in headings ==> IsTocHeading(l)
    ensures forall item :: item in TocItems(headings) ==> (item.level == 2 || item.level == 3) && IsAnchorId(item.id)
  {
    TocItemsPointwise(headings);
    forall item | item in TocItems(headings) ensures (item.level == 2 || item.level == 3) && IsAnchorId(item.id) {
      var i :| 0 <= i < |headings| && item == TocItems(headings)[i];
      assert headings[i] in headings;
      HeadingLevelOf(headings[i]);
    }
  }

  /** The TOC has one item per heading line, in the order of the lines; equal
      headings give equal items, and both are kept. */
  lemma TocItemsPointwise(headings: seq<string>)
    ensures |TocItems(headings)| == |headings|
    ensures forall i :: 0 <= i < |headings| ==> TocItems(headings)[i] == TocItemOf(headings[i])
  {
  }

  /** The heading lines are exactly the lines that are TOC headings. */
  lemma {:induction false} HeadingLinesMembers(lines: seq<string>)
    ensures forall l :: l in HeadingLines(lines) <==> l in lines && IsTocHeading(l)
  {
    if lines != [] {
      var h := HeadingLines(lines[1..]);
      HeadingLinesMembers(lines[1..]);
      assert lines == [lines[0]] + lines[1..];
      if IsTocHeading(lines[0]) {
        assert HeadingLines(lines) == [lines[0]] + h;
      } else {
        assert HeadingLines(lines) == h;
      }
    }
  }

  /** A line is a TOC heading exactly when it starts with two or three `#` and then whitespace;
      `#` and `####` lines are not. */
  lemma TocHeadingByLevel(line: string)
    ensures IsTocHeading(line) <==>
              (LeadingHashes(line) in {2, 3} && LeadingHashes(line) < |line| && IsSpace(line[LeadingHashes(line)]))
  {
    var k := LeadingHashes(line);
    if (k == 2 || k == 3) && k < |line| && IsSpace(line[k]) {
      assert HashesThenSpace(line, k);
    }
    if HashesThenSpace(line, 2) {
      assert line[2] != '#';
    }
    if HashesThenSpace(line, 3) {
      assert line[3] != '#';
    }
  }

  /** The item of a heading line: the level is the number of leading `#` (2
      or 3), the text is the line after the hashes and exactly one whitespace
      character, and the id is an anchor id. */
  lemma TocItemOfHeading(line: string)
    requires IsTocHeading(line)
    ensures var item := TocItemOf(line);
            (item.level == 2 || item.level == 3) && item.level == LeadingHashes(line)
            && item.level < |line|
            && (forall i :: 0 <= i < item.level ==> line[i] == '#')
            && IsSpace(line[item.level])
            && item.text == line[item.level + 1..]
            && IsAnchorId(item.id)
  {
    HeadingLevelOf(line);
    TocItemFields(line);
  }

  /** A heading line's level is its number of hashes, 2 or 3, and its text follows the space. */
  lemma HeadingLevelOf(line: string)
    requires IsTocHeading(line)
    ensures var k := LeadingHashes(line);
            (k == 2 || k == 3) && k < |line| && IsSpace(line[k])
            && HeadingLevel(line) == k && HeadingText(line) == line[k + 1..]
  {
    var k := LeadingHashes(line);
    if HashesThenSpace(line, 2) {
      assert line[2] != '#';
      assert k == 2;
    } else {
      assert line[3] != '#';
      assert k == 3;
    }
  }

  /** Proof step: one unfolding of `TocItemOf`, the fields of a line's item. */
  lemma TocItemFields(line: string)
    ensures TocItemOf(line).level == HeadingLevel(line)
    ensures TocItemOf(line).text == HeadingText(line)
    ensures TocItemOf(line).id == HeadingId(HeadingText(line))
  {
  }

  /** A document's first line contributes its item, if it is a heading, before the items of the rest. */
  lemma TocOfFirstLine(first: string, rest: string)
    requires '\n' !in first
    ensures ExtractToc(first + "\n" + rest)
            == (if IsTocHeading(first) then [TocItemOf(first)] else []) + ExtractToc(rest)
  {
    var s := first + "\n" + rest;
    assert s == first + (['\n'] + rest);
    SplitConcat(first, rest, '\n');
    var lines := Split(rest, '\n');
    assert ([first] + lines)[1..] == lines;
    var h := HeadingLines(lines);
    if IsTocHeading(first) {
      assert HeadingLines(Split(s, '\n')) == [first] + h;
      MapSeqCons(TocItemOf, first, h);
    } else {
      assert HeadingLines(Split(s, '\n')) == h;
    }
  }

  /** Two identical heading lines give two identical items: ids are not made unique. */
  lemma DuplicateHeadingsKept(line: string)
    requires '\n' !in line && IsTocHeading(line)
    ensures ExtractToc(line + "\n" + line) == [TocItemOf(line), TocItemOf(line)]
  {
    TocOfFirstLine(line, line);
    TocOfOneLine(line);
  }

  /** A document of one line has that line's item, if it is a heading, and nothing else. */
  lemma TocOfOneLine(line: string)
    requires '\n' !in line
    ensures ExtractToc(line) == if IsTocHeading(line) then [TocItemOf(line)] else []
  {
    SplitNoSep(line, '\n');
    assert [line][1..] == [];
    assert HeadingLines([]) == [] && TocItems([]) == [];
  }

  // Concrete heading ids are computed piecewise with the lemmas below.

  lemma {:induction false} ToLowerAppend(a: string, b: string)
    ensures ToLower(a + b) == ToLower(a) + ToLower(b)
  {
    if a != [] {
      assert (a + b)[1..] == a[1..] + b;
      ToLowerAppend(a[1..], b);
    } else {
      assert a + b == b;
    }
  }

  lemma {:induction false} KeepIdCharsAppend(a: string, b: string)
    ensures KeepIdChars(a + b) == KeepIdChars(a) + KeepIdChars(b)
  {
    if a != [] {
      assert (a + b)[1..] == a[1..] + b;
      KeepIdCharsAppend(a[1..], b);
    } else {
      assert a + b == b;
    }
  }

  /** A string of identifier characters is kept whole. */
  lemma {:induction false} KeepIdCharsKeeps(s: string)
    requires forall i :: 0 <= i < |s| ==> IsIdChar(s[i])
    ensures KeepIdChars(s) == s
  {
    if s != [] {
      KeepIdCharsKeeps(s[1..]);
    }
  }

  /** A hyphenated string without whitespace at its front keeps that front. */
  lemma {:induction false} HyphenateAppend(a: string, b: string)
    requires forall i :: 0 <= i < |a| ==> !IsSpace(a[i])
    ensures HyphenateSpaces(a + b) == a + HyphenateSpaces(b)
  {
    if a != [] {
      HeadRest(a, b);
      HyphenateKeepsHead(a[0], a[1..] + b);
      HyphenateAppend(a[1..], b);
    } else {
      assert a + b == b;
    }
  }

  /** A character that is not whitespace is kept in front of the rest. */
  lemma HyphenateKeepsHead(c: char, t: string)
    requires !IsSpace(c)
    ensures HyphenateSpaces([c] + t) == [c] + HyphenateSpaces(t)
  {
    assert ([c] + t)[0] == c && ([c] + t)[1..] == t;
  }

  /** A non-empty string, alone or followed by another, is its head before the rest. */
  lemma HeadRest(a: string, b: string)
    requires a != []
    ensures a == [a[0]] + a[1..] && a + b == [a[0]] + (a[1..] + b)
  {
  }

  /** A whole run of whitespace before a non-space becomes one hyphen, however
      long the run is. */
  lemma HyphenateRun(w: string, b: string)
    requires |w| >= 1 && forall i :: 0 <= i < |w| ==> IsSpace(w[i])
    requires b == [] || !IsSpace(b[0])
    ensures HyphenateSpaces(w + b) == "-" + HyphenateSpaces(b)
  {
    assert (w + b)[0] == w[0];
    TrimStartRun(w, b);
  }

  /** Trimming the start drops exactly a leading whitespace run. */
  lemma {:induction false} TrimStartRun(w: string, b: string)
    requires forall i :: 0 <= i < |w| ==> IsSpace(w[i])
    requires b == [] || !IsSpace(b[0])
    ensures TrimStart(w + b) == b
  {
    if w == [] {
      assert w + b == b;
    } else {
      assert (w + b)[0] == w[0] && (w + b)[1..] == w[1..] + b;
      TrimStartRun(w[1..], b);
    }
  }

  /** A run of `\w` characters. */
  predicate IsWord(w: string) {
    |w| > 0 && forall i :: 0 <= i < |w| ==> IsWordChar(w[i])
  }

  /** Characters that `/[^\w\s-]/g` removes. */
  predicate IsPunctuation(p: string) {
    forall i :: 0 <= i < |p| ==> !IsIdChar(p[i])
  }

  /** Two words separated by a space, each possibly followed by punctuation:
      the id is the two words in lower case joined by a hyphen, the
      punctuation gone. ("Sub Heading!" gives "sub-heading", "from() Method"
      gives "from-method".) */
  lemma IdOfTwoWords(a: string, p: string, b: string, q: string)
    requires IsWord(a) && IsWord(b) && IsPunctuation(p) && IsPunctuation(q)
    ensures HeadingId(a + p + " " + b + q) == ToLower(a) + "-" + ToLower(b)
  {
    var la, lb := ToLower(a), ToLower(b);
    LowerWord(a);
    LowerWord(b);
    LowerTwoWords(a, p, b, q);
    KeepTwoWords(la, p, lb, q);
    HyphenTwoWords(la, lb);
    NoHyphensAtEnds(la + "-" + lb);
  }

  /** A string whose first and last characters are not hyphens is kept by the hyphen trimming. */
  lemma NoHyphensAtEnds(h: string)
    requires |h| > 0 && h[0] != '-' && h[|h| - 1] != '-'
    ensures TrimTrailingHyphens(TrimLeadingHyphens(h)) == h
  {
    assert HyphensFrom(h, 0) == 0;
    assert h[0..] == h;
    assert HyphensBefore(h, |h|) == 0;
    assert h[..|h|] == h;
  }

  lemma LowerTwoWords(a: string, p: string, b: string, q: string)
    requires IsPunctuation(p) && IsPunctuation(q)
    ensures ToLower(a + p + " " + b + q) == ToLower(a) + p + " " + ToLower(b) + q
  {
    var x1 := a + p;
    var x2 := x1 + " ";
    var x3 := x2 + b;
    LowerPunctuation(p);
    LowerPunctuation(q);
    assert ToLower(" ") == " ";
    ToLowerAppend(a, p);
    assert ToLower(x1) == ToLower(a) + p;
    ToLowerAppend(x1, " ");
    assert ToLower(x2) == ToLower(a) + p + " ";
    ToLowerAppend(x2, b);
    assert ToLower(x3) == ToLower(a) + p + " " + ToLower(b);
    ToLowerAppend(x3, q);
  }

  lemma KeepTwoWords(a: string, p: string, b: string, q: string)
    requires IsWord(a) && IsWord(b) && IsPunctuation(p) && IsPunctuation(q)
    ensures KeepIdChars(a + p + " " + b + q) == a + " " + b
  {
    var x1 := a + p;
    var x2 := x1 + " ";
    var x3 := x2 + b;
    KeepIdCharsAppend(a, p);
    KeepIdCharsKeeps(a);
    KeepIdCharsDrops(p);
    assert KeepIdChars(x1) == a + [] == a;
    KeepIdCharsAppend(x1, " ");
    KeepIdCharsKeeps(" ");
    assert KeepIdChars(x2) == a + " ";
    KeepIdCharsAppend(x2, b);
    KeepIdCharsKeeps(b);
    assert KeepIdChars(x3) == a + " " + b;
    KeepIdCharsAppend(x3, q);
    KeepIdCharsDrops(q);
    assert KeepIdChars(x3 + q) == a + " " + b + [];
  }

  lemma HyphenTwoWords(a: string, b: string)
    requires IsWord(a) && IsWord(b)
    ensures HyphenateSpaces(a + " " + b) == a + "-" + b
  {
    WordHasNoSpace(a);
    WordHasNoSpace(b);
    var t := [' '] + b;
    assert a + " " + b == a + t;
    calc {
      HyphenateSpaces(a + t);
    == { HyphenateAppend(a, t); }
      a + HyphenateSpaces(t);
    == { HyphenateRun([' '], b); }
      a + ("-" + HyphenateSpaces(b));
    == { HyphenateNoSpace(b); }
      a + ("-" + b);
    }
    assert a + ("-" + b) == a + "-" + b;
  }

  lemma WordHasNoSpace(w: string)
    requires IsWord(w)
    ensures forall i :: 0 <= i < |w| ==> !IsSpace(w[i])
    ensures !IsSpace(w[0])
  {
  }

  /** Text without whitespace is left as it is. */
  lemma HyphenateNoSpace(b: string)
    requires forall i :: 0 <= i < |b| ==> !IsSpace(b[i])
    ensures HyphenateSpaces(b) == b
  {
    HyphenateAppend(b, "");
    assert b + "" == b;
  }

  /** Lower-casing a word gives a word without upper case. */
  lemma LowerWord(w: string)
    requires IsWord(w)
    ensures IsWord(ToLower(w))
  {
  }

  /** Punctuation has no letters, so lower-casing keeps it. */
  lemma LowerPunctuation(p: string)
    requires IsPunctuation(p)
    ensures ToLower(p) == p
  {
  }

  /** Punctuation is removed entirely. */
  lemma {:induction false} KeepIdCharsDrops(p: string)
    requires IsPunctuation(p)
    ensures KeepIdChars(p) == []
  {
    if p != [] {
      KeepIdCharsDrops(p[1..]);
    }
  }

  /** The line `##` or `###`, a space, and a text is a heading line whose
      item has the text, that level and the text's id. */
  lemma HeadingLineItem(level: nat, text: string)
    requires level == 2 || level == 3
    ensures var line := seq(level, _ => '#') + " " + text;
            IsTocHeading(line) && TocItemOf(line) == TocItem(HeadingId(text), text, level)
  {
    var line := seq(level, _ => '#') + " " + text;
    assert HashesThenSpace(line, level);
    HeadingLevelOf(line);
    assert line[level + 1..] == text;
    TocItemFields(line);
  }

  // ---------------------------------------------------------------------
  // Looking a document up
  // ---------------------------------------------------------------------

  /** `files.find(...)`: the first file, markdown or not, whose slug is `slug`. */
  function FindFile(files: seq<SourceFile>, slug: seq<string>): (r: Option<nat>)
    ensures r.None? <==> forall i :: 0 <= i < |files| ==> PathToSlug(files[i].relativePath) != slug
    ensures r.Some? ==> r.value < |files| && PathToSlug(files[r.value].relativePath) == slug
                        && forall j :: 0 <= j < r.value ==> PathToSlug(files[j].relativePath) != slug
  {
    var hasSlug := (f: SourceFile) => PathToSlug(f.relativePath) == slug;
    assert forall i :: 0 <= i < |files| ==> hasSlug(files[i]) == (PathToSlug(files[i].relativePath) == slug);
    FirstMatch(files, hasSlug, 0)
  }

  /** The search of `find` from position `k` on: the first element that `p` accepts. */
  function FirstMatch<T>(xs: seq<T>, p: T -> bool, k: nat): (r: Option<nat>)
    requires k <= |xs|
    ensures r.None? <==> forall i :: k <= i < |xs| ==> !p(xs[i])
    ensures r.Some? ==> k <= r.value < |xs| && p(xs[r.value]) && forall j :: k <= j < r.value ==> !p(xs[j])
    decreases |xs| - k
  {
    if k == |xs| then None
    else if p(xs[k]) then Some(k)
    else FirstMatch(xs, p, k + 1)
  }

  /** `data.title || slug[slug.length - 1]`. The slug of a found file always has a segment. */
  function DocTitle(frontTitle: Option<string>, slug: seq<string>): (title: string)
    requires |slug| >= 1
    ensures Truthy(frontTitle) ==> title == frontTitle.value
    ensures !Truthy(frontTitle) ==> title == slug[|slug| - 1]
  {
    if Truthy(frontTitle) then frontTitle.value else slug[|slug| - 1]
  }

  /** `getDocBySlug`: nothing when no file has the slug; otherwise the first such
      file's document, with its TOC and its title or, failing that, the last slug segment. */
  function GetDocBySlug(files: seq<SourceFile>, slug: seq<string>): (r: Option<Doc>)
    ensures r.None? <==> forall i :: 0 <= i < |files| ==> PathToSlug(files[i].relativePath) != slug
    ensures r.Some? ==>
              FindFile(files, slug).Some? &&
              var i := FindFile(files, slug).value;
              && r.value.slug == slug
              && r.value.content == files[i].content
              && r.value.description == files[i].description
              && r.value.toc == ExtractToc(files[i].content)
              && r.value.title == (if Truthy(files[i].title) then files[i].title.value else slug[|slug| - 1])
  {
    match FindFile(files, slug)
    case None => None
    case Some(i) =>
      var f := files[i];
      Some(Doc(slug, DocTitle(f.title, slug), f.description, f.content, ExtractToc(f.content)))
  }

  /** A file without a markdown extension is still found by its slug, though
      it contributes no slug to the list of all documents. */
  lemma NonMarkdownFileFound()
    ensures var f := SourceFile("notes.txt", "", None, None);
            AllDocSlugs([f.relativePath]) == []
            && GetDocBySlug([f], ["notes.txt"]).Some?
  {
    var p := "notes.txt";
    assert !IsMarkdownFile(p) by {
      assert p[|p| - 3..] == ".txt"[1..];
      assert p[|p| - 4..] == ".txt";
    }
    assert StripMarkdownExtension(p) == p;
    assert MarkdownFiles([p][1..]) == MarkdownFiles([]);
    assert MarkdownFiles([p]) == [];
    SplitNoSep(p, PathSep);
    assert LeadingDigits(p) == 0;
    assert StripOrderPrefixes([p]) == [p];
  }

  // ---------------------------------------------------------------------
  // Previous / next
  // ---------------------------------------------------------------------

  /** `docOrder.findIndex(...)`: the first index whose slug is `slug`, or -1. */
  function IndexOfSlug(order: seq<DocEntry>, slug: seq<string>): (r: int)
    ensures -1 <= r < |order|
    ensures r == -1 <==> forall i :: 0 <= i < |order| ==> order[i].slug != slug
    ensures r != -1 ==> order[r].slug == slug && forall j :: 0 <= j < r ==> order[j].slug != slug
  {
    if |order| == 0 then -1
    else
      var r := IndexOfSlug(order[..|order| - 1], slug);
      if r != -1 then r
      else if order[|order| - 1].slug == slug then |order| - 1
      else -1
  }

  function LinkTo(e: DocEntry): NavLink {
    NavLink(e.title, Href(e.slug))
  }

  /** `getDocNavigation`. */
  function GetDocNavigation(order: seq<DocEntry>, slug: seq<string>): (r: DocNavigation)
    ensures (forall i :: 0 <= i < |order| ==> order[i].slug != slug) ==> r == DocNavigation(None, None)
    ensures forall i :: 0 <= i < |order| && order[i].slug == slug && (forall j :: 0 <= j < i ==> order[j].slug != slug) ==>
              && r.prev == (if i > 0 then Some(NavLink(order[i - 1].title, "/learn/" + Join(order[i - 1].slug, "/"))) else None)
              && r.next == (if i < |order| - 1 then Some(NavLink(order[i + 1].title, "/learn/" + Join(order[i + 1].slug, "/"))) else None)
  {
    var i := IndexOfSlug(order, slug);
    if i == -1 then DocNavigation(None, None)
    else
      DocNavigation(
        if i > 0 then Some(LinkTo(order[i - 1])) else None,
        if i < |order| - 1 then Some(LinkTo(order[i + 1])) else None)
  }

  /** The first page has no previous link and the last no next link; an interior page has both. */
  lemma NavigationEnds(order: seq<DocEntry>)
    requires |order| >= 1
    requires forall i, j :: 0 <= i < j < |order| ==> order[i].slug != order[j].slug
    ensures GetDocNavigation(order, order[0].slug).prev.None?
    ensures GetDocNavigation(order, order[|order| - 1].slug).next.None?
    ensures forall i :: 0 < i < |order| - 1 ==>
              GetDocNavigation(order, order[i].slug) == DocNavigation(Some(LinkTo(order[i - 1])), Some(LinkTo(order[i + 1])))
  {
    forall i | 0 < i < |order| - 1
      ensures GetDocNavigation(order, order[i].slug) == DocNavigation(Some(LinkTo(order[i - 1])), Some(LinkTo(order[i + 1])))
    {
      assert IndexOfSlug(order, order[i].slug) == i;
    }
    assert IndexOfSlug(order, order[0].slug) == 0;
    assert IndexOfSlug(order, order[|order| - 1].slug) == |order| - 1;
  }

}
