# Animation Learn Hub: a Dafny model of its documentation logic

Animation Learn Hub is a Next.js documentation site. Its guides to GSAP and
Framer Motion are markdown files. Around the rendering sit a handful of
small rule sets, and this project models them and proves their properties:

- **The document registry** (`Docs`, `Navigation`, `Sitemap`, `Seo`):
  - a file path becomes a slug;
  - a document body yields its table of contents (TOC), with heading ids made by the slug rule;
  - a slug is looked up in the files, with the title fallback;
  - the previous/next links come from the ordered registry `docOrder`;
  - the sidebar builder (`buildNavigation`);
  - the sitemap entries;
  - the precedence of the base URL's sources.
- **The scroll spies** (`Toc`, `MobileToc`):
  - the desktop TOC keeps the active heading and the URL hash;
  - the mobile bottom sheet adds an open flag, where focus is, a pending-frame flag and a pending focus timer.

  Browser events are method calls. Their geometry arrives as integers.
- **The code-block text utilities** (`CodeBlock`, `InteractiveCodeBlock`):
  - the flattening of a React node tree to text;
  - the preview between the `// @preview-start` and `// @preview-end` markers;
  - the removal of marker blocks from the shown code;
  - the language label, the copy button and the playground flag.
- **The two MDX plugins** (`RemarkPreserveMeta`, `RehypePreserveMeta`): they
  copy a fenced code block's meta string into property maps. They work in
  place on node objects.
- **The playground modal** (`Playground`):
  - the edited code, the run counter and the copy flag;
  - Escape, the Tab focus trap, and the backdrop rule.

`Text` holds the JavaScript string operations the rules use, over ASCII:
- `indexOf`, `substring`, `split`, `join` and `trim`;
- lower-casing;
- the regular-expression classes `\s` (space, tab, line feed, vertical tab,
  form feed, carriage return) and `\w` (`[A-Za-z0-9_]`).

What is a loop or a state change in the source is imperative here:
- `buildNavigation` is a method with its two loops. It is proved equal to
  the function `NavigationOf`, and the sidebar's properties are lemmas about
  that function.
- The mobile frame callback's loop is `FindClosest`, proved equal to `Closest`.
- The components are classes whose methods change their fields.
- The plugins' visitors are methods on node objects. Their transformers
  visit every node of a list.

Where the code and the documented intent differ, the model follows the code:
- TOC levels are only 2 or 3, never 4.
- Duplicate heading ids are kept (`DuplicateHeadingsKept`).
- On the desktop TOC, a scroll to the bottom does not override later
  intersection batches. Each handler sets the active id when it runs, so
  the last event wins.
- `getDocBySlug` searches every file, not only markdown files
  (`NonMarkdownFileFound`).
- `getDisplayCode` is defined but nothing in the component uses it.
- The interactive code block opens `CodeModal`, not the playground modal.

## Model

| member | source | states |
|---|---|---|
| Text.IndexOfFrom | components/InteractiveCodeBlock.tsx:25-26 | `indexOf`: the first position at or after the start where the pattern occurs, or -1 when there is none |
| Text.IndexOf | components/InteractiveCodeBlock.tsx:25-26 | -1 exactly when the pattern occurs nowhere; otherwise an occurrence with none before it |
| Text.FirstOccurrence | components/InteractiveCodeBlock.tsx:25-26 | an occurrence with none between the start and it is the one `indexOf` returns |
| Text.Substring | components/InteractiveCodeBlock.tsx:33 | `substring` clamps both ends to the string and swaps them when the first is larger |
| Text.Clamp | components/InteractiveCodeBlock.tsx:33 | the clamped index lies in range and equals the index when it already does |
| Text.Split | lib/docs.ts:39 | `split` gives at least one piece |
| Text.JoinSplit | lib/docs.ts:39 | joining the pieces of a split with the separator gives the string back, and no piece holds the separator |
| Text.SplitJoin | lib/docs.ts:39 | splitting the join of separator-free parts gives the parts back |
| Text.SplitNoSep | lib/docs.ts:39 | a string without the separator splits into itself |
| Text.SplitConcat | lib/docs.ts:63 | splitting `a`, the separator, then `b` gives `a` followed by the pieces of `b` |
| Text.Join | lib/navigation.ts:50 | the join of a non-empty list starts with its first part |
| Text.TrimStart | components/InteractiveCodeBlock.tsx:34 | the result is a suffix, everything dropped is whitespace, and it does not start with whitespace |
| Text.TrimEnd | components/InteractiveCodeBlock.tsx:34 | the result is a prefix, everything dropped is whitespace, and it does not end with whitespace |
| Text.Trim | components/InteractiveCodeBlock.tsx:34 | `trim()` gives a contiguous piece of the input, with only whitespace before and after it in the input, that neither starts nor ends with whitespace |
| Text.TrimIdempotent | components/InteractiveCodeBlock.tsx:34 | trimming twice is trimming once |
| Text.TrimNoEdgeSpace | components/InteractiveCodeBlock.tsx:34 | a string without whitespace at its ends is its own trim |
| Text.ToLowerChar | lib/docs.ts:69 | ASCII upper-case letters move down by 32 to lower case; every other character is kept |
| Text.ToLower | lib/docs.ts:69 | `toLowerCase` keeps the length, maps each character by itself, and leaves no upper-case letter |
| Text.NatToString | components/CodeBlock.tsx:7 | `String(n)` is a non-empty string of digits without a leading zero |
| Text.DigitChar | components/CodeBlock.tsx:7 | a digit's character is the digit |
| Text.ParseNatToString | components/CodeBlock.tsx:7 | reading the decimal string back gives the number |
| Text.IntToString | components/CodeBlock.tsx:7 | `String(n)` of an integer: digits reading back as `n`, or `-` and digits reading back as `-n` |
| Docs.LeadingDigits | lib/docs.ts:40 | the length of the run of digits at the start of a segment |
| Docs.StripMarkdownExtension | lib/docs.ts:38 | `replace(/\.mdx?$/, '')` drops four characters from a `.mdx` name, three from a `.md` name, and nothing from any other |
| Docs.ExtensionStripped | lib/docs.ts:38 | a name followed by `.mdx` or `.md` is a markdown file whose stripped name is the name |
| Docs.PathToSlug | lib/docs.ts:37-40 | a slug has at least one segment |
| Docs.StripOrderPrefixes | lib/docs.ts:40 | one segment out per segment in, each with its ordering prefix dropped |
| Docs.StripOrderPrefixOnce | lib/docs.ts:40 | `NN-rest` becomes `rest`: exactly one prefix of digits and a hyphen is removed |
| Docs.LeadingDigitsOfPrefix | lib/docs.ts:40 | digits followed by a non-digit are counted exactly |
| Docs.StripOrderPrefixKeeps | lib/docs.ts:40 | a segment not starting with a digit is kept |
| Docs.SlugOfPath | lib/docs.ts:34-41 | a `.md` or `.mdx` file whose separator-free segments are joined with `/` is a markdown file, and its slug is its segments with their prefixes dropped |
| Docs.MarkdownFilesMembers | lib/docs.ts:34 | the filter keeps exactly the files ending in `.md` or `.mdx`, drops no file when all have one, and never lengthens the list |
| Docs.SlugsOfPointwise | lib/docs.ts:35-42 | one slug per markdown file, the `i`-th slug being the `i`-th file's |
| Docs.AllDocSlugs | lib/docs.ts:31-43 | the slugs are no more than the files; every markdown file's slug is in the list, and every slug in it is a markdown file's |
| Docs.KeepIdChars | lib/docs.ts:70 | removing `[^\w\s-]` never lengthens the text and leaves only word characters, whitespace and hyphens taken from the input |
| Docs.HyphenateSpaces | lib/docs.ts:71 | the result is no longer than the input and has no whitespace; each character is a hyphen or a non-space of the input; that each run becomes one hyphen is `HyphenateRun` |
| Docs.LeadingHashes | lib/docs.ts:66 | the length of the run of `#` at the start of the line |
| Docs.HyphensFrom | lib/docs.ts:72 | the length of the run of hyphens starting at a position |
| Docs.HyphensBefore | lib/docs.ts:72 | the length of the run of hyphens ending at a position |
| Docs.HyphenatedChars | lib/docs.ts:69-71 | before the ends are trimmed, the id text holds only `[a-z0-9_-]` |
| Docs.HeadingId | lib/docs.ts:68-72 | every id holds only `[a-z0-9_-]` and neither starts nor ends with `-` |
| Docs.TocItemsPointwise | lib/docs.ts:65-74 | one item per heading line, in line order; equal lines give equal items |
| Docs.HeadingLinesMembers | lib/docs.ts:64 | the lines kept are exactly the lines matching `^#{2,3}\s` |
| Docs.TocHeadingByLevel | lib/docs.ts:64 | a line is a heading line if and only if it starts with exactly two or three `#` followed by whitespace, so `#` and `####` lines are skipped |
| Docs.TocItemOfHeading | lib/docs.ts:66-73 | a heading line's item has level 2 or 3, equal to its number of `#`; its text is the line after the hashes and one whitespace character; its id is an anchor id |
| Docs.HeadingLevelOf | lib/docs.ts:66-67 | a heading line's level is its number of hashes and its text follows the space after them |
| Docs.ExtractToc | lib/docs.ts:62-74 | every TOC item has level 2 or 3 and an anchor id |
| Docs.TocOfFirstLine | lib/docs.ts:62-74 | the first line contributes its item, when it is a heading, ahead of the items of the rest of the document |
| Docs.DuplicateHeadingsKept | lib/docs.ts:62-74 | two identical heading lines give two identical items; ids are not made unique |
| Docs.TocOfOneLine | lib/docs.ts:62-74 | a one-line document has that line's item when it is a heading, and otherwise no item |
| Docs.ToLowerAppend | lib/docs.ts:69 | lower-casing distributes over concatenation |
| Docs.KeepIdCharsAppend | lib/docs.ts:70 | the character filter distributes over concatenation |
| Docs.KeepIdCharsKeeps | lib/docs.ts:70 | a string of word characters, whitespace and hyphens is kept whole |
| Docs.KeepIdCharsDrops | lib/docs.ts:70 | punctuation is removed entirely |
| Docs.HyphenateAppend | lib/docs.ts:71 | a front without whitespace is kept as it is by the hyphenation |
| Docs.HyphenateRun | lib/docs.ts:71 | a whole run of whitespace, of any length, before a non-space becomes one hyphen |
| Docs.IdOfTwoWords | lib/docs.ts:68-72 | two words, each maybe followed by punctuation, give the lower-cased words joined by `-` ("Sub Heading!" gives "sub-heading", "from() Method" gives "from-method") |
| Docs.NoHyphensAtEnds | lib/docs.ts:72 | a text without a hyphen at either end is kept by the trimming of hyphens at the ends |
| Docs.LowerTwoWords | lib/docs.ts:69 | lower-casing two words with punctuation lowers only the words |
| Docs.KeepTwoWords | lib/docs.ts:70 | the filter leaves the two words and the space |
| Docs.HyphenTwoWords | lib/docs.ts:71 | the space between two words becomes one hyphen |
| Docs.LowerWord | lib/docs.ts:69 | a lower-cased word is still a word |
| Docs.LowerPunctuation | lib/docs.ts:69 | lower-casing keeps punctuation |
| Docs.HeadingLineItem | lib/docs.ts:64-73 | `##` or `###`, a space and a text make a heading line whose item is that text, its id and that level |
| Docs.FindFile | lib/docs.ts:47-54 | `find`: nothing exactly when no file has the slug; otherwise the first file that has it |
| Docs.DocTitle | lib/docs.ts:78 | a non-empty front-matter title is the title; otherwise the last slug segment is |
| Docs.GetDocBySlug | lib/docs.ts:45-83 | null exactly when no file has the slug; otherwise the first such file's document, with the slug, the content, the description, the TOC of the content and the title fallback |
| Docs.NonMarkdownFileFound | lib/docs.ts:34-54 | a `.txt` file gives no slug in the list of all documents but is still found by its slug |
| Docs.IndexOfSlug | lib/docs.ts:89-91 | `findIndex`: -1 exactly when no entry has the slug; otherwise the first entry that has it |
| Docs.GetDocNavigation | lib/docs.ts:85-114 | an unknown slug gives two nulls; otherwise the previous and next entries, when they exist, with title and `/learn/` + the slug joined by `/` |
| Docs.NavigationEnds | lib/docs.ts:93-111 | in a registry with distinct slugs, the first page has no previous link, the last no next link, and an interior page both neighbours |
| Navigation.BuildNavigation | lib/navigation.ts:36-81 | the builder's two loops produce exactly the sidebar `NavigationOf` defines: the standalone nodes in order, then one group per category with metadata, in first-seen order |
| Navigation.AppendGroups | lib/navigation.ts:68-78 | the second loop appends the groups of the collected keys, in key order, skipping keys without metadata |
| Navigation.Href | lib/navigation.ts:50 | every href starts with `/learn/` |
| Navigation.HrefRoundTrip | lib/navigation.ts:50 | for a non-empty slug of slash-free segments, splitting what follows `/learn/` on `/` gives the slug back |
| Navigation.NavigationOf | lib/navigation.ts:36-81 | every sidebar node has an href exactly when it has no children, and every href starts with `/learn/` |
| Navigation.StandaloneNodes | lib/navigation.ts:52-58 | every standalone node comes from an entry with a falsy category, has its href `/learn/` + the slug joined by `/` and no children; every such entry has its node |
| Navigation.GroupNodesShaped | lib/navigation.ts:72-76 | a group node has children and no href |
| Navigation.StandaloneBeforeGroups | lib/navigation.ts:49-78 | all standalone nodes come before all group nodes |
| Navigation.ChildrenMembers | lib/navigation.ts:60-65 | a child is in a category's group exactly when its entry is of that category, and no group has the empty key |
| Navigation.ChildrenCount | lib/navigation.ts:60-65 | a group has as many children as its category has entries |
| Navigation.FirstInCategory | lib/navigation.ts:61-63 | the first entry of a category, or -1 when it has none |
| Navigation.CategoryKeysFirstSeen | lib/navigation.ts:61-69 | the group keys are the categories that occur, each once, in the order of their first entries |
| Navigation.GroupsCount | lib/navigation.ts:69-78 | one group per distinct key that has metadata |
| Navigation.NavigationLength | lib/navigation.ts:49-78 | the sidebar's length is the number of standalone entries plus the number of distinct categories with metadata |
| Navigation.StandaloneCount | lib/navigation.ts:52-58 | one standalone node per standalone entry |
| Navigation.GroupsAreCategories | lib/navigation.ts:69-77 | each group node is a category with metadata, with that category's children |
| Navigation.DroppedCategories | lib/navigation.ts:70-77 | every child in the sidebar comes from an entry whose category has metadata; the pages of the others are absent |
| Navigation.ShippedStandalone | lib/navigation.ts:6 | in the shipped registry only Getting Started is standalone |
| Navigation.ShippedKeys | lib/navigation.ts:7-21 | the shipped categories, in first-seen order, are `gsap` and `framer-motion` |
| Navigation.ShippedGsapChildren | lib/navigation.ts:7-16 | the GSAP group has the six GSAP pages in registry order |
| Navigation.ShippedFramerChildren | lib/navigation.ts:17-21 | the Framer Motion group has the one Framer Motion page |
| Navigation.ShippedGroups | lib/navigation.ts:69-78 | the shipped groups are GSAP, then Framer Motion, with their metadata |
| Navigation.ShippedHref0 | lib/navigation.ts:6 | the Getting Started href |
| Navigation.ShippedHref1 | lib/navigation.ts:7 | the Basics href |
| Navigation.ShippedHref2 | lib/navigation.ts:8 | the useGSAP Hook href |
| Navigation.ShippedHref3 | lib/navigation.ts:9 | the from() Method href |
| Navigation.ShippedHref4 | lib/navigation.ts:10-14 | the fromTo() Method href |
| Navigation.ShippedHref5 | lib/navigation.ts:15 | the Timeline href |
| Navigation.ShippedHref6 | lib/navigation.ts:16 | the Easing href |
| Navigation.ShippedHref7 | lib/navigation.ts:17-21 | the Introduction href |
| Navigation.JoinPair | lib/navigation.ts:50 | the href of a two-segment slug |
| Navigation.ShippedNavigation | lib/navigation.ts:5-81 | the shipped sidebar is Getting Started, then GSAP with six children, then Framer Motion with one, with their titles, icons and hrefs |
| Sitemap.Sitemap | app/sitemap.ts:5-28 | one entry more than there are slugs: first the base URL, daily, priority 1, then per slug in order its URL, weekly, priority 0.8 |
| Sitemap.SitemapMatchesNavigation | app/sitemap.ts:11 | a document's sitemap URL is the base URL followed by its navigation href |
| Sitemap.SitemapUrlsDistinct | app/sitemap.ts:10-27 | distinct non-empty slugs whose segments are slash-free give distinct URLs, none of them the home page's |
| Sitemap.DocUrlsDiffer | app/sitemap.ts:11 | two different slugs of that kind have different URLs |
| Seo.TrimTrailingSlashes | lib/seo.ts:7 | `replace(/\/+$/, '')` leaves a prefix that does not end in `/`, and only slashes are removed |
| Seo.GetBaseUrl | lib/seo.ts:4-17 | a non-empty site URL wins, minus its trailing slashes; then a non-empty deployment URL behind `https://`; then `http://localhost:3000` |
| Seo.SiteUrlWins | lib/seo.ts:6-8 | with a site URL set, the deployment URL does not matter |
| Seo.OnlySlashes | lib/seo.ts:7 | a site URL of slashes only, such as `/`, gives the empty string |
| Seo.TrimTrailingSlashesIdempotent | lib/seo.ts:7 | removing the trailing slashes twice is removing them once |
| Seo.SlashSuffixRemoved | lib/seo.ts:7 | a URL followed by any number of slashes gives the URL |
| Seo.VercelUrlNotTrimmed | lib/seo.ts:11-13 | an unset or empty site URL gives `https://` + the deployment URL, with its slashes kept |
| Toc.Topmost | components/Toc.tsx:30-36 | none exactly when no entry intersects; otherwise an intersecting entry with the smallest top, and the earliest such one, as the stable sort gives |
| Toc.SyncedHash | components/Toc.tsx:56-60 | a non-empty active id puts `#` + the id in the hash; an empty one leaves the hash |
| Toc.SyncedHashIdempotent | components/Toc.tsx:57 | running the hash sync twice is running it once |
| Toc.Indent | components/Toc.tsx:85-86 | no indent for level 2, `pl-3` for level 3, `pl-6` otherwise |
| Toc.AtBottom | components/Toc.tsx:18-19 | the page counts as at the bottom exactly when at most 100 pixels are left below the viewport |
| Toc.TocSpy.constructor | components/Toc.tsx:5-14 | no active id to begin with, with the given items and hash; the mount effect installs its listeners exactly when there are items |
| Toc.TocSpy.SetActiveId | components/Toc.tsx:56-60 | the id is set, and when it changed the hash sync runs and leaves the hash naming it |
| Toc.TocSpy.OnScroll | components/Toc.tsx:16-25 | with listeners installed, within 100 pixels of the bottom and at least one item, the last item becomes active; any other scroll changes nothing |
| Toc.TocSpy.OnIntersect | components/Toc.tsx:28-38 | the topmost intersecting entry becomes active; a batch without one changes nothing |
| Toc.TocSpy.OnClick | components/Toc.tsx:62-69 | a heading whose element exists becomes active at once; otherwise nothing changes |
| Toc.TopmostBeatsOthers | components/Toc.tsx:33-36 | the chosen entry is higher than any other intersecting entry, or as high and earlier |
| Toc.TopmostIgnoresHidden | components/Toc.tsx:30 | entries that do not intersect do not affect the choice |
| Toc.TopmostSingle | components/Toc.tsx:30-36 | a single intersecting entry is chosen |
| MobileToc.Closest | components/MobileTableOfContents.tsx:37-48 | none exactly when no item has an element; otherwise an item with an element at the smallest distance from 120 pixels, and the earliest such one |
| MobileToc.FindClosest | components/MobileTableOfContents.tsx:37-48 | the frame callback's loop finds the id of `Closest`, or the empty id |
| MobileToc.ClosestId | components/MobileTableOfContents.tsx:37-48 | the empty id when no item has an element; a non-empty id is that of an item with an element that is nearest the line |
| MobileToc.Indent | components/MobileTableOfContents.tsx:146-151 | no indent for level 2, `pl-4` for level 3, `pl-8` otherwise |
| MobileToc.MobileTocSheet.constructor | components/MobileTableOfContents.tsx:11-57 | closed with nothing active; the mount-time `onScroll` leaves a frame pending exactly when there are items |
| MobileToc.MobileTocSheet.OnScroll | components/MobileTableOfContents.tsx:33-36 | a scroll schedules a frame unless one is pending; nothing else changes |
| MobileToc.MobileTocSheet.OnFrame | components/MobileTableOfContents.tsx:36-53 | a non-empty closest id becomes active, no item element leaves the active id, and the pending flag clears |
| MobileToc.MobileTocSheet.Tap | components/MobileTableOfContents.tsx:19-26 | tapping an entry, also while the sheet animates out, whose element exists makes it active, closes the sheet and focuses the open button; otherwise nothing changes |
| MobileToc.MobileTocSheet.OnKeyDown | components/MobileTableOfContents.tsx:64-73 | Escape on an open sheet closes it and focuses the open button; any other key, or Escape on a closed sheet, changes nothing |
| MobileToc.MobileTocSheet.Dismiss | components/MobileTableOfContents.tsx:101-133 | the backdrop and the close button, also while the sheet animates out, close the sheet and focus the open button |
| MobileToc.MobileTocSheet.OpenSheet | components/MobileTableOfContents.tsx:80-82 | the floating button opens the sheet and starts the focus timer; focus has not moved yet |
| MobileToc.MobileTocSheet.FocusTimer | components/MobileTableOfContents.tsx:82 | the zero-delay timer moves focus to the close button when it is mounted, and otherwise leaves focus |
| MobileToc.ClosestIsNearest | components/MobileTableOfContents.tsx:43-47 | the chosen item is at least as close as every item with an element, and strictly closer than every earlier one |
| MobileToc.TieGoesToEarlier | components/MobileTableOfContents.tsx:44 | of two items equally far above and below the line, the earlier wins |
| CodeBlock.Texts | components/CodeBlock.tsx:9 | `map` gives one text per array item, the `i`-th being the text of the `i`-th item |
| CodeBlock.TextContent | components/CodeBlock.tsx:5-15 | a non-negative number gives digits that read back as it; any other leaf that is not a string gives the empty string |
| CodeBlock.JoinEmpty | components/CodeBlock.tsx:9 | `join('')` of two lists is the concatenation of their joins |
| CodeBlock.TextsAppend | components/CodeBlock.tsx:9 | the texts of two lists of items are the texts of each |
| CodeBlock.ArrayTextAppend | components/CodeBlock.tsx:9 | the text of an array is the text of its first part followed by that of its second |
| CodeBlock.TextOfLeaves | components/CodeBlock.tsx:5-15 | however arrays and elements nest, the text is the left-to-right concatenation of the leaves' texts |
| CodeBlock.TextOfLeavesAll | components/CodeBlock.tsx:9 | the text of an array's items is the concatenation of their leaves' texts |
| CodeBlock.ConcatAppend | components/CodeBlock.tsx:9 | concatenating the texts of two lists of leaves |
| CodeBlock.TextOfScalars | components/CodeBlock.tsx:6-8 | a string gives itself; a number, zero included, gives its decimal digits, after `-` when negative; null, undefined and false give the empty string |
| CodeBlock.Language | components/CodeBlock.tsx:23-24 | the language is empty exactly when `data-language` is absent or empty, and otherwise is that attribute |
| CodeBlock.CodeBlockView.constructor | components/CodeBlock.tsx:17-18 | not copied, with the block's children and language |
| CodeBlock.CodeBlockView.OnCopy | components/CodeBlock.tsx:26-28 | the trimmed text goes to the clipboard and the copied flag is set |
| CodeBlock.CodeBlockView.CopiedTimeout | components/CodeBlock.tsx:29 | the flag clears; the clipboard keeps its text |
| CodeBlock.CopiedTextIsTrimmed | components/CodeBlock.tsx:27 | the copied text has no whitespace at either end and trimming it again changes nothing |
| InteractiveCodeBlock.ExtractPreviewHtml | components/InteractiveCodeBlock.tsx:24-42 | null when a marker is missing or the first end marker does not come after the first start marker; otherwise the trimmed text between them, or null when that is blank; a returned preview is non-empty and trimmed |
| InteractiveCodeBlock.NoEndInsideStart | components/InteractiveCodeBlock.tsx:20-21 | no end marker begins inside a start marker |
| InteractiveCodeBlock.PreviewBetweenMarkers | components/InteractiveCodeBlock.tsx:24-42 | given the first start marker and an end marker after it with no end marker before it outside the start marker, the preview is the trimmed text between them, or null when that is blank |
| InteractiveCodeBlock.EndBeforeStartHidesPreview | components/InteractiveCodeBlock.tsx:28-30 | an end marker with no start marker at or before it gives null |
| InteractiveCodeBlock.BlockEnd | components/InteractiveCodeBlock.tsx:47 | the lazy match of a block from a start marker ends right after the nearest end marker at least a marker length on, plus one line feed when one follows; it is -1 exactly when there is no such end marker |
| InteractiveCodeBlock.StripMarkerBlocks | components/InteractiveCodeBlock.tsx:47 | removing marker blocks never lengthens the code |
| InteractiveCodeBlock.DisplayCode | components/InteractiveCodeBlock.tsx:45-49 | the display code is no longer than the code and is trimmed; code without a start marker is just trimmed |
| InteractiveCodeBlock.NoMarkerUnchanged | components/InteractiveCodeBlock.tsx:45-49 | code without a start marker is shown trimmed and otherwise unchanged |
| InteractiveCodeBlock.BlockRemoved | components/InteractiveCodeBlock.tsx:47 | a start marker with an end marker after it loses at least both markers |
| InteractiveCodeBlock.PrefixKept | components/InteractiveCodeBlock.tsx:47 | the text before the first start marker is kept |
| InteractiveCodeBlock.UnclosedMarkerKept | components/InteractiveCodeBlock.tsx:47 | a first start marker with no end marker after it matches nothing, so the code is kept whole |
| InteractiveCodeBlock.FirstBlockRemoved | components/InteractiveCodeBlock.tsx:47 | for the first start marker and the nearest end marker after it, the text before the block is kept, the block and one line feed after it are removed, and the rest is processed the same way |
| InteractiveCodeBlock.InteractiveBlockView.constructor | components/InteractiveCodeBlock.tsx:61-74 | not copied, modal closed; the code text is the children's text and the preview is `extractPreviewHTML` of it |
| InteractiveCodeBlock.InteractiveBlockView.OnCopy | components/InteractiveCodeBlock.tsx:76-79 | the whole text, trimmed, goes to the clipboard and the copied flag is set |
| InteractiveCodeBlock.InteractiveBlockView.CopiedTimeout | components/InteractiveCodeBlock.tsx:79 | the flag clears |
| InteractiveCodeBlock.InteractiveBlockView.OpenPlayground | components/InteractiveCodeBlock.tsx:82-135 | the button, shown only with a preview, opens the modal, which is then visible |
| InteractiveCodeBlock.InteractiveBlockView.ClosePlayground | components/InteractiveCodeBlock.tsx:86-88 | the modal closes |
| RemarkPreserveMeta.PreservedProperties | lib/remark-preserve-meta.ts:9-18 | a `code` node with a non-empty meta gets it under `data-meta`, in its own or a new map, with its other keys kept; any other node keeps its map |
| RemarkPreserveMeta.PreservedPropertiesIdempotent | lib/remark-preserve-meta.ts:11-17 | the rule applied to its result changes nothing |
| RemarkPreserveMeta.MdastNode.constructor | lib/remark-preserve-meta.ts:9 | a node with its type, meta, properties and children |
| RemarkPreserveMeta.MdastNode.Visit | lib/remark-preserve-meta.ts:9-18 | the visitor sets the properties the rule gives and changes nothing else |
| RemarkPreserveMeta.Transform | lib/remark-preserve-meta.ts:8-19 | after the traversal every node has the properties the rule gives for its original fields, however often it is reached; types, meta strings and children are unchanged |
| RehypePreserveMeta.Put | lib/rehype-preserve-meta.ts:19-26 | a key is set in an existing or a new map, and the other keys are kept |
| RehypePreserveMeta.Rewrite | lib/rehype-preserve-meta.ts:12-27 | only a `pre` element whose first child is `code` changes; a non-empty `data.meta` and a non-empty `data-meta` property of the child are copied, and the other keys are kept |
| RehypePreserveMeta.RewriteIdempotent | lib/rehype-preserve-meta.ts:12-27 | rewriting twice with the same child is rewriting once |
| RehypePreserveMeta.RewriteReadsCodeChildOnly | lib/rehype-preserve-meta.ts:14-15 | only the first child's tag, and for a `code` child its maps, decide the rewrite |
| RehypePreserveMeta.HastNode.constructor | lib/rehype-preserve-meta.ts:10 | a node with its fields and children |
| RehypePreserveMeta.HastNode.Visit | lib/rehype-preserve-meta.ts:10-29 | the visitor gives the node the rewrite of its fields and its first child's, and keeps its children |
| RehypePreserveMeta.Transform | lib/rehype-preserve-meta.ts:9-30 | after the traversal every node has the rewrite of its original fields and its first child's original fields, however often it is reached; the children lists are unchanged |
| Playground.TrapTarget | components/CodePlaygroundModal.tsx:44-60 | Shift+Tab on the first focusable element goes to the last, Tab on the last goes to the first, and every other case keeps the default move |
| Playground.TrapRoundTrip | components/CodePlaygroundModal.tsx:53-59 | wrapping back and forth at the ends returns focus where it was |
| Playground.TrapSingle | components/CodePlaygroundModal.tsx:53-59 | with one focusable element, Tab keeps focus on it |
| Playground.PlaygroundModal.constructor | components/CodePlaygroundModal.tsx:19-21 | empty code, run counter 0, not copied |
| Playground.PlaygroundModal.SetExample | components/CodePlaygroundModal.tsx:27-32 | a new example sets the code to its initial code and the counter to 0; a null example keeps both |
| Playground.PlaygroundModal.SetOpen | components/CodePlaygroundModal.tsx:35-73 | the body scroll lock is on exactly while the modal is open |
| Playground.PlaygroundModal.OpenTimer | components/CodePlaygroundModal.tsx:64 | the timer after opening focuses the close button when the dialog is shown |
| Playground.PlaygroundModal.Run | components/CodePlaygroundModal.tsx:76-78 | the counter goes up by exactly one; the code is unchanged |
| Playground.PlaygroundModal.Reset | components/CodePlaygroundModal.tsx:80-85 | with an example, its initial code returns and the counter goes up by one; with none, nothing changes |
| Playground.PlaygroundModal.Copy | components/CodePlaygroundModal.tsx:87-90 | the untrimmed code goes to the clipboard and the copied flag is set |
| Playground.PlaygroundModal.CopiedTimeout | components/CodePlaygroundModal.tsx:90 | the flag clears |
| Playground.PlaygroundModal.Edit | components/CodePlaygroundModal.tsx:190-191 | the code becomes the textarea's value |
| Playground.PlaygroundModal.OnKeyDown | components/CodePlaygroundModal.tsx:35-61 | while open, Escape asks to close and Tab wraps focus by `TrapTarget` when the dialog is rendered; while closed, no key does anything |
| Playground.PlaygroundModal.PressClose | components/CodePlaygroundModal.tsx:157-175 | either close button asks the parent to close |
| Playground.PlaygroundModal.OnBackdropClick | components/CodePlaygroundModal.tsx:106-108 | a click asks to close only when its target is the backdrop itself |

## Left out

- Reading the documentation directory and parsing front matter are left out. A file is its relative path, its body and its front-matter title and description.
- The node tree handed to `visit` is given as the list of its nodes in traversal order. `unist-util-visit` itself is not modelled.
- Navigation.BuildNavigation: `categoryGroups` is a plain object, so a category key naming an `Object.prototype` member (`constructor`, `toString`, `__proto__`, ...) finds the inherited value, the group array is never created and the `push` throws a `TypeError`. That failure is not modelled: the model builds a group for every key, as it does for the shipped keys `gsap` and `framer-motion`, which name no such member.
- `Object.entries` lists integer-like keys first. The model keeps insertion order, as holds for the shipped category keys.
- Timers (`setTimeout`, `requestAnimationFrame`) are explicit method calls, and a callback for an unmounted component is not modelled.
- The clipboard is a field.
- `history.replaceState` writes the hash field.
- Focus is a field.
- The observer's root margin and real-valued coordinates are left out. Tops are integers.
- `String(n)` is modelled as the decimal digits of an exact integer. JavaScript numbers are doubles: non-integral numbers, integers above 2^53 (which are not represented exactly) and magnitudes from 1e21 on (which print in exponent form, such as `1e+21`) are not modelled, and neither are `NaN` and the infinities.
- Docs.StripMarkdownExtension: its contract states how many characters are dropped; which characters remain is stated by `ExtensionStripped` for names built with an extension.
- Text.Join: its contract states only that the join starts with the first part; the full content is stated by `JoinSplit` and `SplitJoin`.
- MobileToc.MobileTocSheet.FocusTimer: the timer is a separate call, and the model does not force it to run before other events.
- Character classes and lower-casing are ASCII only.
- Toc.TocSpy.constructor: a later change of the `items` prop is not modelled, for either TOC.
- MobileToc.MobileTocSheet.constructor: the early `return null` before the hooks is not modelled. It breaks the rules of hooks when the items change between empty and non-empty.
- Playground.PlaygroundModal.OnKeyDown: the browser's default Tab move is not modelled. Only the wrap at the ends is.
- The parent's `onCloseAction` is a counter of close requests (`closeRequests`).
- `Demo` has no model.
- `modalRef` being null while the dialog animates is not modelled.
- `CodeModal`, which the interactive code block opens, is not part of this model.
- The sitemap's `lastModified` is the request time and is not modelled.
- `siteConfig` is a constant record that no modelled rule reads.
- The rendering (JSX, classes, animation) is not modelled, beyond which elements exist.
- Docs.IdOfTwoWords: the example ids "sub-heading" and "from-method" are covered by this lemma's general shape (two words, each maybe followed by punctuation), not by evaluating the literal headings.
- RehypePreserveMeta.Transform: running the transformer twice is not one lemma about two method calls. Idempotence is stated by `RewriteIdempotent`, together with the fact that a node reached again keeps its result.
- RemarkPreserveMeta.Transform: as for rehype, idempotence is stated by `PreservedPropertiesIdempotent`.
