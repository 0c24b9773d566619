/** The plain code block (components/CodeBlock.tsx): the text of a React
    node tree, the language label and the copy button. The same text
    flattening is used by the interactive code block. */
module CodeBlock {
  import opened Text

  /** The React node values the flattening distinguishes. Numbers are
      integral; `Element` holds the element's `children` prop (`Undefined`
      when it has none); `Other` is any other value (an object, a function). */
  datatype ReactNode =
    | Str(s: string)
    | Num(n: int)
    | Null
    | Undefined
    | Bool(b: bool)
    | Arr(items: seq<ReactNode>)
    | Element(children: ReactNode)
    | Other

  /** `extractTextContent`: a string is itself, a number its decimal
      digits, an array the concatenation of its items' texts, an element the
      text of its children, and anything else (including `null`,
      `undefined` and both booleans) the empty string. */
  function TextContent(node: ReactNode): (r: string)
    ensures IsLeaf(node) && !node.Str? && !node.Num? ==> r == ""
    ensures node.Num? && node.n >= 0 ==> (forall k :: 0 <= k < |r| ==> IsDigit(r[k])) && ParseNat(r) == node.n
    decreases node, 1
  {
    match node
    case Str(s) => s
    case Num(n) => IntToString(n)
    case Null => ""
    case Undefined => ""
    case Bool(_) => ""
    case Arr(items) => Join(Texts(items), "")
    case Element(children) => TextContent(children)
    case Other => ""
  }

  /** `node.map(extractTextContent)`. */
  function Texts(items: seq<ReactNode>): (r: seq<string>)
    ensures |r| == |items|
    ensures forall i :: 0 <= i < |items| ==> r[i] == TextContent(items[i])
    decreases items, 0
  {
    if items == [] then [] else [TextContent(items[0])] + Texts(items[1..])
  }

  /** The parts one after the other. */
  function Flatten(parts: seq<string>): string {
    if parts == [] then "" else parts[0] + Flatten(parts[1..])
  }

  /** Joining with the empty separator is flattening. */
  lemma {:induction false} JoinEmptyFlattens(parts: seq<string>)
    ensures Join(parts, "") == Flatten(parts)
  {
    if parts != [] {
      JoinEmptyFlattens(parts[1..]);
      if |parts| == 1 {
        assert parts[1..] == [];
        assert parts[0] + "" == parts[0];
      } else {
        assert parts[0] + "" == parts[0];
      }
    }
  }

  lemma {:induction false} FlattenAppend(a: seq<string>, b: seq<string>)
    ensures Flatten(a + b) == Flatten(a) + Flatten(b)
  {
    if a == [] {
      assert a + b == b;
    } else {
      assert (a + b)[0] == a[0] && (a + b)[1..] == a[1..] + b;
      FlattenAppend(a[1..], b);
    }
  }

  /** Joining with the empty separator is plain concatenation. */
  lemma JoinEmpty(a: seq<string>, b: seq<string>)
    ensures Join(a + b, "") == Join(a, "") + Join(b, "")
  {
    JoinEmptyFlattens(a + b);
    JoinEmptyFlattens(a);
    JoinEmptyFlattens(b);
    FlattenAppend(a, b);
  }

  lemma {:induction false} TextsAppend(a: seq<ReactNode>, b: seq<ReactNode>)
    ensures Texts(a + b) == Texts(a) + Texts(b)
  {
    if a == [] {
      assert a + b == b;
    } else {
      assert (a + b)[1..] == a[1..] + b;
      TextsAppend(a[1..], b);
    }
  }

  /** The text of an array is the text of its first part followed by the text of its second. */
  lemma ArrayTextAppend(a: seq<ReactNode>, b: seq<ReactNode>)
    ensures TextContent(Arr(a + b)) == TextContent(Arr(a)) + TextContent(Arr(b))
  {
    TextsAppend(a, b);
    JoinEmpty(Texts(a), Texts(b));
  }

  /** The leaves of a node: nested arrays and elements are opened up, left to right. */
  function Leaves(node: ReactNode): seq<ReactNode>
    decreases node, 1
  {
    match node
    case Arr(items) => LeavesOfAll(items)
    case Element(children) => Leaves(children)
    case _ => [node]
  }

  function LeavesOfAll(items: seq<ReactNode>): seq<ReactNode>
    decreases items, 0
  {
    if items == [] then [] else Leaves(items[0]) + LeavesOfAll(items[1..])
  }

  /** In-order concatenation of the texts of a list of nodes. */
  function Concat(nodes: seq<ReactNode>): string {
    if nodes == [] then "" else TextContent(nodes[0]) + Concat(nodes[1..])
  }

  /** A leaf is neither an array nor an element. */
  predicate IsLeaf(node: ReactNode) {
    !node.Arr? && !node.Element?
  }

  /** However deeply arrays and elements nest, the text is the left-to-right
      concatenation of the texts of the leaves, and every leaf is a leaf. */
  lemma {:induction false} TextOfLeaves(node: ReactNode)
    ensures TextContent(node) == Concat(Leaves(node))
    ensures forall l :: l in Leaves(node) ==> IsLeaf(l)
    decreases node, 1
  {
    match node
    case Arr(items) =>
      TextOfLeavesAll(items);
    case Element(children) =>
      TextOfLeaves(children);
    case _ =>
      assert Concat([node]) == TextContent(node) + Concat([]);
  }

  lemma {:induction false} TextOfLeavesAll(items: seq<ReactNode>)
    ensures Join(Texts(items), "") == Concat(LeavesOfAll(items))
    ensures forall l :: l in LeavesOfAll(items) ==> IsLeaf(l)
    decreases items, 0
  {
    if items != [] {
      TextOfLeaves(items[0]);
      TextOfLeavesAll(items[1..]);
      JoinEmpty([TextContent(items[0])], Texts(items[1..]));
      assert Texts(items) == [TextContent(items[0])] + Texts(items[1..]);
      ConcatAppend(Leaves(items[0]), LeavesOfAll(items[1..]));
    }
  }

  lemma {:induction false} ConcatAppend(a: seq<ReactNode>, b: seq<ReactNode>)
    ensures Concat(a + b) == Concat(a) + Concat(b)
  {
    if a == [] {
      assert a + b == b;
    } else {
      assert (a + b)[1..] == a[1..] + b;
      ConcatAppend(a[1..], b);
    }
  }

  /** A string flattens to itself; a number, zero included, to its digits,
      after a `-` when it is negative; the falsy non-numbers flatten to nothing. */
  lemma TextOfScalars(s: string, n: int)
    ensures TextContent(Str(s)) == s && TextContent(Str("")) == ""
    ensures n >= 0 ==> TextContent(Num(n)) == NatToString(n)
    ensures n < 0 ==> TextContent(Num(n)) == "-" + NatToString(-n)
    ensures TextContent(Num(0)) == "0"
    ensures TextContent(Null) == "" && TextContent(Undefined) == "" && TextContent(Bool(false)) == ""
  {
    assert NatToString(0) == [DigitChar(0)];
  }

  /** `dataLanguage || ''`. */
  function Language(dataLanguage: Option<string>): (language: string)
    ensures language == "" <==> !Truthy(dataLanguage)
    ensures Truthy(dataLanguage) ==> language == dataLanguage.value
  {
    if Truthy(dataLanguage) then dataLanguage.value else ""
  }

  /** The language label is rendered exactly when the language is non-empty. */
  predicate ShowsLanguageLabel(language: string) {
    language != ""
  }

  /** A rendered code block: its children, its `data-language` attribute,
      the `copied` flag and the last text written to the clipboard. */
  class CodeBlockView {
    const children: ReactNode
    const dataLanguage: Option<string>
    var copied: bool
    var clipboard: Option<string>

    constructor(children: ReactNode, dataLanguage: Option<string>)
      ensures this.children == children && this.dataLanguage == dataLanguage
      ensures !copied && clipboard == None
    {
      this.children := children;
      this.dataLanguage := dataLanguage;
      copied := false;
      clipboard := None;
    }

    function CodeText(): string {
      TextContent(children)
    }

    /** `onCopy`: the trimmed text goes to the clipboard and the check mark shows. */
    method OnCopy()
      modifies this
      ensures clipboard == Some(Trim(CodeText())) && copied
    {
      clipboard := Some(Trim(CodeText()));
      copied := true;
    }

    /** The two-second timer after a copy: the check mark goes away; the clipboard keeps the text. */
    method CopiedTimeout()
      modifies this
      ensures !copied && clipboard == old(clipboard)
    {
      copied := false;
    }
  }

  /** What a copy writes never starts or ends with whitespace, and copying the
      copied text again writes the same text. */
  lemma CopiedTextIsTrimmed(node: ReactNode)
    ensures var t := Trim(TextContent(node));
            (t == [] || (!IsSpace(t[0]) && !IsSpace(t[|t| - 1]))) && Trim(t) == t
  {
    TrimIdempotent(TextContent(node));
  }
}
