/** The interactive code block (components/InteractiveCodeBlock.tsx): the
    preview found between the preview markers, the code shown without the
    marker blocks, and the copy and playground state of a rendered block. */
module InteractiveCodeBlock {
  import opened Text
  import opened CodeBlock

  const PreviewStart: string := "// @preview-start"
  const PreviewEnd: string := "// @preview-end"

  /** `extractPreviewHTML`: with the first start marker at `s` and the first
      end marker at `e`, nothing when a marker is missing or `e` does not
      come after `s`; otherwise the trimmed text between the end of the start
      marker and `e`, or nothing when that text is blank. */
  function ExtractPreviewHtml(code: string): (r: Option<string>)
    ensures r.Some? ==> r.value != "" && Trim(r.value) == r.value
    ensures IndexOf(code, PreviewStart) == -1 || IndexOf(code, PreviewEnd) == -1 ==> r.None?
    ensures IndexOf(code, PreviewEnd) <= IndexOf(code, PreviewStart) ==> r.None?
    ensures var s := IndexOf(code, PreviewStart);
            var e := IndexOf(code, PreviewEnd);
            s != -1 && e != -1 && s < e ==>
              s + |PreviewStart| <= e
              && r == if Trim(code[s + |PreviewStart|..e]) == "" then None else Some(Trim(code[s + |PreviewStart|..e]))
  {
    var s := IndexOf(code, PreviewStart);
    var e := IndexOf(code, PreviewEnd);
    if s == -1 || e == -1 || e <= s then None
    else
      NoEndInsideStart(code, s);
      var content := Trim(Substring(code, s + |PreviewStart|, e));
      TrimIdempotent(Substring(code, s + |PreviewStart|, e));
      if content == "" then None else Some(content)
  }

  /** No end marker begins inside a start marker: the start marker has no `/`
      after its first two characters, and its second character is followed
      by a space; so the first end marker after a start marker lies at least
      the start marker's length beyond it. */
  lemma NoEndInsideStart(code: string, s: int)
    requires OccursAt(code, PreviewStart, s)
    ensures forall i :: s <= i < s + |PreviewStart| ==> !OccursAt(code, PreviewEnd, i)
  {
    assert |PreviewStart| == 17 && |PreviewEnd| == 15;
    var m := code[s..s + 17];
    assert m == PreviewStart;
    forall i | s <= i < s + 17 ensures !OccursAt(code, PreviewEnd, i) {
      if i + 15 <= |code| {
        var w := code[i..i + 15];
        if i == s {
          assert w[12] == code[s + 12] == m[12] == 's' != PreviewEnd[12];
        } else if i == s + 1 {
          assert w[1] == code[s + 2] == m[2] == ' ' != PreviewEnd[1];
        } else {
          assert w[0] == code[i] == m[i - s] != '/';
        }
      }
    }
  }

  /** A start marker at `s` with none before it, and an end marker at `e`
      past it with none before it: the preview is the trimmed text between
      the two markers, when that is not blank. Whatever the text holds (`//`
      comments, closing tags) does not matter. */
  lemma PreviewBetweenMarkers(code: string, s: nat, e: nat)
    requires s + |PreviewStart| <= e
    requires OccursAt(code, PreviewStart, s) && OccursAt(code, PreviewEnd, e)
    requires forall i :: 0 <= i < s ==> !OccursAt(code, PreviewStart, i)
    requires forall i :: 0 <= i < e && !(s <= i < s + |PreviewStart|) ==> !OccursAt(code, PreviewEnd, i)
    ensures ExtractPreviewHtml(code)
            == if Trim(code[s + |PreviewStart|..e]) == "" then None else Some(Trim(code[s + |PreviewStart|..e]))
  {
    NoEndInsideStart(code, s);
    FirstOccurrence(code, PreviewStart, 0, s);
    FirstOccurrence(code, PreviewEnd, 0, e);
  }

  /** An end marker before the first start marker hides the preview, even
      when another end marker follows the start marker. */
  lemma EndBeforeStartHidesPreview(code: string, e: nat)
    requires OccursAt(code, PreviewEnd, e)
    requires forall i :: 0 <= i <= e ==> !OccursAt(code, PreviewStart, i)
    ensures ExtractPreviewHtml(code).None?
  {
  }

  /** The end of a marker block: after the nearest end marker that begins
      past the start marker at `start`, and after the line feed straight
      after it, if there is one (the greedy `\n?`); -1 when no end marker
      follows. */
  function BlockEnd(code: string, start: nat): (k: int)
    ensures k == -1 || start + |PreviewStart| + |PreviewEnd| <= k <= |code|
    ensures var e := IndexOfFrom(code, PreviewEnd, start + |PreviewStart|);
            && (k == -1 <==> e == -1)
            && (k != -1 ==> (k == e + |PreviewEnd| || (k == e + |PreviewEnd| + 1 && code[e + |PreviewEnd|] == '\n')))
            && (k != -1 && k == e + |PreviewEnd| ==> k == |code| || code[k] != '\n')
  {
    var e := IndexOfFrom(code, PreviewEnd, start + |PreviewStart|);
    if e == -1 then -1
    else if e + |PreviewEnd| < |code| && code[e + |PreviewEnd|] == '\n' then e + |PreviewEnd| + 1
    else e + |PreviewEnd|
  }

  /** The lazy, global regular-expression replacement of `getDisplayCode`:
      from the first start marker, removes everything up to the nearest end
      marker after it and one line feed after that, then goes on after the
      removed block. A start marker with no end marker after it, and anything
      after it, is kept. */
  function StripMarkerBlocks(code: string): (r: string)
    ensures |r| <= |code|
    decreases |code|
  {
    var s := IndexOf(code, PreviewStart);
    if s == -1 then code
    else
      var k := BlockEnd(code, s);
      if k == -1 then code
      else code[..s] + StripMarkerBlocks(code[k..])
  }

  /** `getDisplayCode`: the code without its marker blocks, trimmed; code
      without a start marker is only trimmed. */
  function DisplayCode(code: string): (r: string)
    ensures |r| <= |code| && Trim(r) == r
    ensures IndexOf(code, PreviewStart) == -1 ==> r == Trim(code)
  {
    TrimIdempotent(StripMarkerBlocks(code));
    Trim(StripMarkerBlocks(code))
  }

  /** Code without a start marker is shown as it is, trimmed. */
  lemma NoMarkerUnchanged(code: string)
    requires forall i :: 0 <= i < |code| ==> !OccursAt(code, PreviewStart, i)
    ensures StripMarkerBlocks(code) == code && DisplayCode(code) == Trim(code)
  {
  }

  /** A start marker with no end marker after it is no block: the code is kept whole. */
  lemma UnclosedMarkerKept(code: string, s: nat)
    requires OccursAt(code, PreviewStart, s)
    requires forall i :: 0 <= i < s ==> !OccursAt(code, PreviewStart, i)
    requires forall i :: s + |PreviewStart| <= i ==> !OccursAt(code, PreviewEnd, i)
    ensures StripMarkerBlocks(code) == code
  {
    FirstOccurrence(code, PreviewStart, 0, s);
  }

  /** Code with a start marker followed by an end marker loses at least both markers. */
  lemma BlockRemoved(code: string)
    requires IndexOf(code, PreviewStart) != -1
    requires IndexOfFrom(code, PreviewEnd, IndexOf(code, PreviewStart) + |PreviewStart|) != -1
    ensures |StripMarkerBlocks(code)| <= |code| - |PreviewStart| - |PreviewEnd|
  {
  }

  /** The text before the first start marker is always kept. */
  lemma PrefixKept(code: string)
    requires IndexOf(code, PreviewStart) != -1
    ensures StartsWith(StripMarkerBlocks(code), code[..IndexOf(code, PreviewStart)])
  {
  }

  /** The first block, from the first start marker at `s` to the end of the
      nearest end marker after it at `e` and one line feed after that, is
      removed; the text before it is kept and the rest is processed the same
      way. What lies between the markers does not matter. */
  lemma FirstBlockRemoved(code: string, s: nat, e: nat)
    requires s + |PreviewStart| <= e
    requires OccursAt(code, PreviewStart, s) && OccursAt(code, PreviewEnd, e)
    requires forall i :: 0 <= i < s ==> !OccursAt(code, PreviewStart, i)
    requires forall i :: s + |PreviewStart| <= i < e ==> !OccursAt(code, PreviewEnd, i)
    ensures var k := if e + |PreviewEnd| < |code| && code[e + |PreviewEnd|] == '\n' then e + |PreviewEnd| + 1 else e + |PreviewEnd|;
            StripMarkerBlocks(code) == code[..s] + StripMarkerBlocks(code[k..])
  {
    FirstOccurrence(code, PreviewStart, 0, s);
    FirstOccurrence(code, PreviewEnd, s + |PreviewStart|, e);
    StripFirstBlock(code);
  }

  /** Proof step: one unfolding of the removal, the text before the first block,
      then the rest after the block. */
  lemma StripFirstBlock(code: string)
    requires IndexOf(code, PreviewStart) != -1 && BlockEnd(code, IndexOf(code, PreviewStart)) != -1
    ensures var s := IndexOf(code, PreviewStart);
            StripMarkerBlocks(code) == code[..s] + StripMarkerBlocks(code[BlockEnd(code, s)..])
  {
  }

  /** A rendered interactive block: the text of its children and the
      preview found in it are computed once per render. */
  class InteractiveBlockView {
    const children: ReactNode
    const dataLanguage: Option<string>
    const codeText: string
    const previewHtml: Option<string>
    var copied: bool
    var clipboard: Option<string>
    var isModalOpen: bool

    constructor(children: ReactNode, dataLanguage: Option<string>)
      ensures this.children == children && this.dataLanguage == dataLanguage
      ensures codeText == TextContent(children) && previewHtml == ExtractPreviewHtml(codeText)
      ensures !copied && clipboard == None && !isModalOpen
    {
      var text := TextContent(children);
      var preview := ExtractPreviewHtml(text);
      this.children := children;
      this.dataLanguage := dataLanguage;
      codeText := text;
      previewHtml := preview;
      copied := false;
      clipboard := None;
      isModalOpen := false;
    }

    /** `showPreview`: the preview button and the modal are rendered. */
    predicate ShowsPreview() {
      previewHtml.Some?
    }

    /** The modal is on screen: there is a preview and it was opened. */
    predicate PlaygroundVisible()
      reads this
    {
      ShowsPreview() && isModalOpen
    }

    /** `onCopy`: the whole trimmed text, markers included, goes to the clipboard. */
    method OnCopy()
      modifies this
      ensures clipboard == Some(Trim(codeText)) && copied && isModalOpen == old(isModalOpen)
    {
      clipboard := Some(Trim(codeText));
      copied := true;
    }

    method CopiedTimeout()
      modifies this
      ensures !copied && clipboard == old(clipboard) && isModalOpen == old(isModalOpen)
    {
      copied := false;
    }

    /** `openPlayground`, from the preview button, which only a block with a preview has. */
    method OpenPlayground()
      requires ShowsPreview()
      modifies this
      ensures isModalOpen && PlaygroundVisible()
      ensures copied == old(copied) && clipboard == old(clipboard)
    {
      isModalOpen := true;
    }

    /** `closePlayground`. */
    method ClosePlayground()
      modifies this
      ensures !isModalOpen && !PlaygroundVisible()
      ensures copied == old(copied) && clipboard == old(clipboard)
    {
      isModalOpen := false;
    }
  }
}
