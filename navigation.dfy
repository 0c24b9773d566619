/** The documentation registry and the sidebar builder of lib/navigation.ts.
    The registry (`docOrder`) and the category metadata (`categories`) are
    parameters; the shipped tables are the constants `DocOrder` and
    `Categories`. */
module Navigation {
  import opened Text

  /** The lucide icons the sidebar uses. */
  datatype Icon = BookOpen | Layers | Sparkles

  /** One registry entry: the page's slug, its title and its category (absent for `null`). */
  datatype DocEntry = DocEntry(slug: seq<string>, title: string, category: Option<string>)

  datatype CategoryMeta = CategoryMeta(title: string, icon: Icon)

  datatype NavChild = NavChild(title: string, href: string)

  /** A sidebar node: a standalone page has an `href` and no `children`, a
      category group has `children` and no `href`. */
  datatype NavNode = NavNode(title: string, icon: Icon, href: Option<string>, children: Option<seq<NavChild>>)

  const StandaloneIcon: Icon := BookOpen

  /** The route of a page: `/learn/` followed by its slug segments joined with `/`. */
  function Href(slug: seq<string>): (h: string)
    ensures StartsWith(h, "/learn/")
  {
    "/learn/" + Join(slug, "/")
  }

  /** Splitting what follows `/learn/` in an href on `/` gives the slug back,
      when it has one segment or more and none holds a `/`. */
  lemma HrefRoundTrip(slug: seq<string>)
    requires |slug| >= 1
    requires forall i :: 0 <= i < |slug| ==> '/' !in slug[i]
    ensures var h := Href(slug);
            Split(h[|"/learn/"|..], '/') == slug
  {
    var h := Href(slug);
    assert h[|"/learn/"|..] == Join(slug, "/");
    SplitJoin(slug, '/');
  }

  /** `!doc.category`: a missing or empty category makes the page standalone. */
  predicate IsStandalone(e: DocEntry) {
    !Truthy(e.category)
  }

  /** The category key of a categorised entry. */
  function CategoryOf(e: DocEntry): string
    requires !IsStandalone(e)
  {
    e.category.value
  }

  function StandaloneNode(e: DocEntry): NavNode {
    NavNode(e.title, StandaloneIcon, Some(Href(e.slug)), None)
  }

  function ChildOf(e: DocEntry): NavChild {
    NavChild(e.title, Href(e.slug))
  }

  function GroupNode(meta: CategoryMeta, children: seq<NavChild>): NavNode {
    NavNode(meta.title, meta.icon, None, Some(children))
  }

  predicate InCategory(e: DocEntry, key: string) {
    !IsStandalone(e) && CategoryOf(e) == key
  }

  // ---------------------------------------------------------------------
  // The specification of the sidebar, defined on the registry.
  // Each function is defined on the registry's last entry so that the
  // builder's loop can be checked against it one entry at a time.
  // ---------------------------------------------------------------------

  /** The standalone nodes, in registry order. */
  function Standalone(order: seq<DocEntry>): seq<NavNode> {
    if |order| == 0 then []
    else
      var e := order[|order| - 1];
      Standalone(order[..|order| - 1]) + (if IsStandalone(e) then [StandaloneNode(e)] else [])
  }

  /** The distinct category keys of the categorised entries, in the order in which they are first met. */
  function CategoryKeys(order: seq<DocEntry>): seq<string> {
    if |order| == 0 then []
    else
      var keys := CategoryKeys(order[..|order| - 1]);
      var e := order[|order| - 1];
      if IsStandalone(e) || CategoryOf(e) in keys then keys else keys + [CategoryOf(e)]
  }

  /** The children of the group for `key`: the entries of that category, in registry order. */
  function Children(order: seq<DocEntry>, key: string): seq<NavChild> {
    if |order| == 0 then []
    else
      var e := order[|order| - 1];
      Children(order[..|order| - 1], key) + (if InCategory(e, key) then [ChildOf(e)] else [])
  }

  /** One group node per key that has metadata, in the order of `keys`. */
  function Groups(keys: seq<string>, order: seq<DocEntry>, categories: map<string, CategoryMeta>): seq<NavNode> {
    if |keys| == 0 then []
    else
      var k := keys[|keys| - 1];
      Groups(keys[..|keys| - 1], order, categories)
        + (if k in categories then [GroupNode(categories[k], Children(order, k))] else [])
  }

  /** The sidebar the builder must produce: every node is either a page
      link under `/learn/` without children or a group with children and no
      link. */
  function NavigationOf(order: seq<DocEntry>, categories: map<string, CategoryMeta>): (nav: seq<NavNode>)
    ensures forall n :: n in nav ==> (n.href.Some? <==> n.children.None?)
    ensures forall n :: n in nav && n.href.Some? ==> StartsWith(n.href.value, "/learn/")
  {
    StandaloneNodes(order);
    GroupNodesShaped(CategoryKeys(order), order, categories);
    Standalone(order) + Groups(CategoryKeys(order), order, categories)
  }

  // ---------------------------------------------------------------------
  // The builder, as the source writes it.
  // ---------------------------------------------------------------------

  /** `buildNavigation`: one pass over the registry pushes standalone nodes
      and collects each category's children in a dictionary (whose key order
      is kept in `keys`, as `Object.entries` enumerates insertion order); a
      second pass appends one group per category that has metadata. */
  method BuildNavigation(order: seq<DocEntry>, categories: map<string, CategoryMeta>) returns (nav: seq<NavNode>)
    ensures nav == NavigationOf(order, categories)
  {
    nav := [];
    var groups: map<string, seq<NavChild>> := map[];
    var keys: seq<string> := [];
    for i := 0 to |order|
      invariant nav == Standalone(order[..i])
      invariant keys == CategoryKeys(order[..i])
      invariant forall k :: k in groups <==> k in keys
      invariant forall k :: k in groups ==> groups[k] == Children(order[..i], k)
      invariant forall k :: k !in keys ==> Children(order[..i], k) == []
    {
      var doc := order[i];
      PrefixStep(order, i);
      var href := Href(doc.slug);
      if !Truthy(doc.category) {
        nav := nav + [NavNode(doc.title, StandaloneIcon, Some(href), None)];
        forall k ensures Children(order[..i + 1], k) == Children(order[..i], k) {
          ChildrenStep(order, i, k);
        }
      } else {
        var key := doc.category.value;
        if key !in groups {
          groups := groups[key := []];
          keys := keys + [key];
        }
        groups := groups[key := groups[key] + [NavChild(doc.title, href)]];
        forall k | k in groups ensures groups[k] == Children(order[..i + 1], k) {
          ChildrenStep(order, i, k);
        }
        forall k | k !in keys ensures Children(order[..i + 1], k) == [] {
          ChildrenStep(order, i, k);
        }
      }
    }
    assert order[..|order|] == order;
    nav := AppendGroups(nav, keys, groups, order, categories);
  }

  /** The second pass of `buildNavigation`: for each collected category, in
      the order its key was first inserted, a group node when the category
      has metadata. */
  method AppendGroups(nav0: seq<NavNode>, keys: seq<string>, groups: map<string, seq<NavChild>>,
                      ghost order: seq<DocEntry>, categories: map<string, CategoryMeta>) returns (nav: seq<NavNode>)
    requires forall k :: k in keys ==> k in groups && groups[k] == Children(order, k)
    ensures nav == nav0 + Groups(keys, order, categories)
  {
    nav := nav0;
    for j := 0 to |keys|
      invariant nav == nav0 + Groups(keys[..j], order, categories)
    {
      assert keys[..j + 1][..j] == keys[..j];
      var key := keys[j];
      if key in categories {
        var meta := categories[key];
        var node := NavNode(meta.title, meta.icon, None, Some(groups[key]));
        ghost var before := Groups(keys[..j], order, categories);
        nav := nav + [node];
        assert nav == nav0 + (before + [node]);
      }
    }
    assert keys[..|keys|] == keys;
  }

  /** Proof step: one unfolding of the standalone nodes and the category keys
      for a prefix one entry longer. */
  lemma PrefixStep(order: seq<DocEntry>, i: nat)
    requires i < |order|
    ensures var p, e := order[..i], order[i];
            && Standalone(order[..i + 1]) == Standalone(p) + (if IsStandalone(e) then [StandaloneNode(e)] else [])
            && CategoryKeys(order[..i + 1])
               == (if IsStandalone(e) || CategoryOf(e) in CategoryKeys(p) then CategoryKeys(p) else CategoryKeys(p) + [CategoryOf(e)])
  {
    assert order[..i + 1][..i] == order[..i];
  }

  /** Proof step: one unfolding of the children of one category for a prefix
      one entry longer. */
  lemma ChildrenStep(order: seq<DocEntry>, i: nat, key: string)
    requires i < |order|
    ensures Children(order[..i + 1], key)
            == Children(order[..i], key) + (if InCategory(order[i], key) then [ChildOf(order[i])] else [])
  {
    assert order[..i + 1][..i] == order[..i];
  }

  // ---------------------------------------------------------------------
  // Properties of the sidebar.
  // ---------------------------------------------------------------------

  predicate IsStandaloneShaped(n: NavNode) {
    n.href.Some? && n.children.None? && n.icon == StandaloneIcon
  }

  predicate IsGroupShaped(n: NavNode) {
    n.href.None? && n.children.Some?
  }

  /** Every standalone node is a standalone entry's node, with the entry's href. */
  lemma {:induction false} StandaloneNodes(order: seq<DocEntry>)
    ensures forall n :: n in Standalone(order) ==> IsStandaloneShaped(n)
    ensures forall n :: n in Standalone(order) ==>
              exists i :: 0 <= i < |order| && IsStandalone(order[i]) && n == StandaloneNode(order[i])
                          && n.href == Some("/learn/" + Join(order[i].slug, "/"))
    ensures forall i :: 0 <= i < |order| && IsStandalone(order[i]) ==> StandaloneNode(order[i]) in Standalone(order)
  {
    if |order| > 0 {
      var p := order[..|order| - 1];
      StandaloneNodes(p);
      forall n | n in Standalone(order)
        ensures exists i :: 0 <= i < |order| && IsStandalone(order[i]) && n == StandaloneNode(order[i])
      {
        if n in Standalone(p) {
          var i :| 0 <= i < |p| && IsStandalone(p[i]) && n == StandaloneNode(p[i]);
          assert order[i] == p[i];
        }
      }
      forall i | 0 <= i < |order| && IsStandalone(order[i])
        ensures StandaloneNode(order[i]) in Standalone(order)
      {
        if i < |p| {
          assert p[i] == order[i];
        }
      }
    }
  }

  /** Every group node has no href and carries children. */
  lemma {:induction false} GroupNodesShaped(keys: seq<string>, order: seq<DocEntry>, categories: map<string, CategoryMeta>)
    ensures forall n :: n in Groups(keys, order, categories) ==> IsGroupShaped(n)
  {
    if |keys| > 0 {
      GroupNodesShaped(keys[..|keys| - 1], order, categories);
    }
  }

  /** All standalone nodes come before all group nodes. */
  lemma StandaloneBeforeGroups(order: seq<DocEntry>, categories: map<string, CategoryMeta>)
    ensures var nav := NavigationOf(order, categories);
            var k := |Standalone(order)|;
            k <= |nav|
            && (forall i :: 0 <= i < k ==> IsStandaloneShaped(nav[i]))
            && (forall i :: k <= i < |nav| ==> IsGroupShaped(nav[i]))
  {
    StandaloneNodes(order);
    GroupNodesShaped(CategoryKeys(order), order, categories);
    var nav := NavigationOf(order, categories);
    var k := |Standalone(order)|;
    forall i | 0 <= i < k ensures IsStandaloneShaped(nav[i]) {
      assert nav[i] == Standalone(order)[i];
    }
    forall i | k <= i < |nav| ensures IsGroupShaped(nav[i]) {
      assert nav[i] == Groups(CategoryKeys(order), order, categories)[i - k];
    }
  }

  /** A child belongs to the group of `key` exactly when it comes from an
      entry of that category; children are in registry order because each
      entry's child is appended after those of the entries before it. */
  lemma {:induction false} ChildrenMembers(order: seq<DocEntry>, key: string)
    ensures forall i :: 0 <= i < |order| && InCategory(order[i], key) ==> ChildOf(order[i]) in Children(order, key)
    ensures forall c :: c in Children(order, key) ==>
              exists i :: 0 <= i < |order| && InCategory(order[i], key) && c == ChildOf(order[i])
    ensures forall c :: c in Children(order, key) ==> key != ""
  {
    if |order| > 0 {
      var p := order[..|order| - 1];
      ChildrenMembers(p, key);
      forall i | 0 <= i < |order| && InCategory(order[i], key)
        ensures ChildOf(order[i]) in Children(order, key)
      {
        if i < |p| {
          assert p[i] == order[i];
        }
      }
      forall c | c in Children(order, key)
        ensures exists i :: 0 <= i < |order| && InCategory(order[i], key) && c == ChildOf(order[i])
      {
        if c in Children(p, key) {
          var i :| 0 <= i < |p| && InCategory(p[i], key) && c == ChildOf(p[i]);
          assert order[i] == p[i];
        }
      }
    }
  }

  /** The number of children of a group is the number of entries of its category. */
  lemma {:induction false} ChildrenCount(order: seq<DocEntry>, key: string)
    ensures |Children(order, key)| == |set i | 0 <= i < |order| && InCategory(order[i], key)|
  {
    if |order| > 0 {
      var p := order[..|order| - 1];
      ChildrenCount(p, key);
      assert forall i :: 0 <= i < |p| ==> p[i] == order[i];
      var before := set i | 0 <= i < |p| && InCategory(p[i], key);
      var after := set i | 0 <= i < |order| && InCategory(order[i], key);
      if InCategory(order[|order| - 1], key) {
        assert after == before + {|order| - 1};
      } else {
        assert after == before;
      }
    }
  }

  predicate NoDuplicates(s: seq<string>) {
    forall i, j :: 0 <= i < j < |s| ==> s[i] != s[j]
  }

  /** The index of the first entry of category `key`. */
  function FirstInCategory(order: seq<DocEntry>, key: string): (r: int)
    ensures r == -1 <==> forall i :: 0 <= i < |order| ==> !InCategory(order[i], key)
    ensures r != -1 ==> 0 <= r < |order| && InCategory(order[r], key)
                        && forall i :: 0 <= i < r ==> !InCategory(order[i], key)
  {
    if |order| == 0 then -1
    else
      var r := FirstInCategory(order[..|order| - 1], key);
      if r != -1 then r
      else if InCategory(order[|order| - 1], key) then |order| - 1
      else -1
  }

  /** The group keys are exactly the categories that occur, each once, in the
      order of their first occurrence in the registry. */
  lemma {:induction false} CategoryKeysFirstSeen(order: seq<DocEntry>)
    ensures NoDuplicates(CategoryKeys(order))
    ensures forall k :: k in CategoryKeys(order) <==> FirstInCategory(order, k) != -1
    ensures forall p, q :: 0 <= p < q < |CategoryKeys(order)| ==>
              FirstInCategory(order, CategoryKeys(order)[p]) < FirstInCategory(order, CategoryKeys(order)[q])
  {
    if |order| > 0 {
      var pre := order[..|order| - 1];
      var e := order[|order| - 1];
      CategoryKeysFirstSeen(pre);
      var ks := CategoryKeys(pre);
      forall k ensures FirstInCategory(order, k) == (if FirstInCategory(pre, k) != -1 then FirstInCategory(pre, k)
                                                      else if InCategory(e, k) then |order| - 1 else -1) {
      }
      if !IsStandalone(e) && CategoryOf(e) !in ks {
        var keys := ks + [CategoryOf(e)];
        forall p, q | 0 <= p < q < |keys|
          ensures FirstInCategory(order, keys[p]) < FirstInCategory(order, keys[q])
        {
          if q < |ks| {
            assert keys[p] == ks[p] && keys[q] == ks[q];
          } else {
            assert keys[p] == ks[p];
            assert keys[p] in ks;
          }
        }
      }
    }
  }

  /** The categories that produce a group: those of categorised entries that have metadata. */
  function ShownCategories(order: seq<DocEntry>, categories: map<string, CategoryMeta>): set<string> {
    set i | 0 <= i < |order| && !IsStandalone(order[i]) && CategoryOf(order[i]) in categories :: CategoryOf(order[i])
  }

  /** One group per key that has metadata. */
  lemma {:induction false} GroupsCount(keys: seq<string>, order: seq<DocEntry>, categories: map<string, CategoryMeta>)
    requires NoDuplicates(keys)
    ensures |Groups(keys, order, categories)| == |set k | k in keys && k in categories|
  {
    if |keys| > 0 {
      var pre := keys[..|keys| - 1];
      var k := keys[|keys| - 1];
      GroupsCount(pre, order, categories);
      var before := set x | x in pre && x in categories;
      var after := set x | x in keys && x in categories;
      assert k !in pre;
      assert keys == pre + [k];
      if k in categories {
        assert after == before + {k};
      } else {
        assert after == before;
      }
    }
  }

  /** The sidebar holds one node per standalone entry and one per distinct
      category that has metadata; a category without metadata yields no node. */
  lemma NavigationLength(order: seq<DocEntry>, categories: map<string, CategoryMeta>)
    ensures |NavigationOf(order, categories)|
            == |set i | 0 <= i < |order| && IsStandalone(order[i])| + |ShownCategories(order, categories)|
  {
    StandaloneCount(order);
    var keys := CategoryKeys(order);
    CategoryKeysFirstSeen(order);
    GroupsCount(keys, order, categories);
    var a := set k | k in keys && k in categories;
    var b := ShownCategories(order, categories);
    forall k | k in a ensures k in b {
      var r := FirstInCategory(order, k);
      assert CategoryOf(order[r]) == k;
    }
    forall k | k in b ensures k in a {
      var i :| 0 <= i < |order| && !IsStandalone(order[i]) && CategoryOf(order[i]) in categories && CategoryOf(order[i]) == k;
      assert InCategory(order[i], k);
    }
    assert a == b;
  }

  lemma {:induction false} StandaloneCount(order: seq<DocEntry>)
    ensures |Standalone(order)| == |set i | 0 <= i < |order| && IsStandalone(order[i])|
  {
    if |order| > 0 {
      var p := order[..|order| - 1];
      StandaloneCount(p);
      var before := set i | 0 <= i < |p| && IsStandalone(p[i]);
      var after := set i | 0 <= i < |order| && IsStandalone(order[i]);
      if IsStandalone(order[|order| - 1]) {
        assert after == before + {|order| - 1};
      } else {
        assert after == before;
      }
    }
  }

  /** Each group node is the group of one key with metadata, and its children are that key's entries. */
  lemma {:induction false} GroupsAreCategories(keys: seq<string>, order: seq<DocEntry>, categories: map<string, CategoryMeta>)
    ensures forall n :: n in Groups(keys, order, categories) ==>
              exists k :: k in keys && k in categories && n == GroupNode(categories[k], Children(order, k))
  {
    if |keys| > 0 {
      var pre := keys[..|keys| - 1];
      GroupsAreCategories(pre, order, categories);
      forall n | n in Groups(keys, order, categories)
        ensures exists k :: k in keys && k in categories && n == GroupNode(categories[k], Children(order, k))
      {
        if n in Groups(pre, order, categories) {
          var k :| k in pre && k in categories && n == GroupNode(categories[k], Children(order, k));
          assert k in keys;
        } else {
          assert keys[|keys| - 1] in keys;
        }
      }
    }
  }

  /** An entry whose category has no metadata appears in no group: every
      child of every group comes from an entry whose category has metadata. */
  lemma DroppedCategories(order: seq<DocEntry>, categories: map<string, CategoryMeta>)
    ensures forall n, c :: n in NavigationOf(order, categories) && n.children.Some? && c in n.children.value ==>
              exists i :: 0 <= i < |order| && !IsStandalone(order[i]) && CategoryOf(order[i]) in categories
                          && c == ChildOf(order[i])
  {
    var keys := CategoryKeys(order);
    GroupsAreCategories(keys, order, categories);
    StandaloneNodes(order);
    forall n, c | n in NavigationOf(order, categories) && n.children.Some? && c in n.children.value
      ensures exists i :: 0 <= i < |order| && !IsStandalone(order[i]) && CategoryOf(order[i]) in categories
                          && c == ChildOf(order[i])
    {
      assert n !in Standalone(order);
      assert n in Groups(keys, order, categories);
      var k :| k in keys && k in categories && n == GroupNode(categories[k], Children(order, k));
      ChildrenMembers(order, k);
      var i :| 0 <= i < |order| && InCategory(order[i], k) && c == ChildOf(order[i]);
    }
  }

  // ---------------------------------------------------------------------
  // The shipped registry.
  // ---------------------------------------------------------------------

  const DocOrder: seq<DocEntry> := [
    DocEntry(["getting-started"], "Getting Started", None),
    DocEntry(["gsap", "basics"], "Basics", Some("gsap")),
    DocEntry(["gsap", "usegasap-hook"], "useGSAP Hook", Some("gsap")),
    DocEntry(["gsap", "from-method"], "from() Method", Some("gsap")),
    DocEntry(["gsap", "fromto-method"], "fromTo() Method", Some("gsap")),
    DocEntry(["gsap", "timeline-method"], "Timeline", Some("gsap")),
    DocEntry(["gsap", "easing"], "Easing", Some("gsap")),
    DocEntry(["framer-motion", "introduction"], "Introduction", Some("framer-motion"))
  ]

  const Categories: map<string, CategoryMeta> := map[
    "gsap" := CategoryMeta("GSAP", Layers),
    "framer-motion" := CategoryMeta("Framer Motion", Sparkles)
  ]

  /** Proof step: facts about the prefixes of the shipped registry that the
      lemmas about the shipped sidebar use. */
  lemma ShippedPrefixes()
    ensures DocOrder[..0] == []
    ensures forall k :: 0 < k <= |DocOrder| ==> DocOrder[..k][..k - 1] == DocOrder[..k - 1]
    ensures DocOrder[..8] == DocOrder
  {
  }

  lemma ShippedStandalone()
    ensures Standalone(DocOrder) == [StandaloneNode(DocOrder[0])]
  {
    var o := DocOrder;
    ShippedPrefixes();
    assert Standalone(o[..1]) == [StandaloneNode(o[0])];
    assert Standalone(o[..2]) == [StandaloneNode(o[0])];
    assert Standalone(o[..3]) == [StandaloneNode(o[0])];
    assert Standalone(o[..4]) == [StandaloneNode(o[0])];
    assert Standalone(o[..5]) == [StandaloneNode(o[0])];
    assert Standalone(o[..6]) == [StandaloneNode(o[0])];
    assert Standalone(o[..7]) == [StandaloneNode(o[0])];
    assert Standalone(o[..8]) == [StandaloneNode(o[0])];
  }

  lemma ShippedKeys()
    ensures CategoryKeys(DocOrder) == ["gsap", "framer-motion"]
  {
    var o := DocOrder;
    ShippedPrefixes();
    assert CategoryKeys(o[..1]) == [];
    assert CategoryKeys(o[..2]) == ["gsap"];
    assert CategoryKeys(o[..3]) == ["gsap"];
    assert CategoryKeys(o[..4]) == ["gsap"];
    assert CategoryKeys(o[..5]) == ["gsap"];
    assert CategoryKeys(o[..6]) == ["gsap"];
    assert CategoryKeys(o[..7]) == ["gsap"];
    assert CategoryKeys(o[..8]) == ["gsap", "framer-motion"];
  }

  lemma ShippedGsapChildren()
    ensures Children(DocOrder, "gsap") ==
      [ChildOf(DocOrder[1]), ChildOf(DocOrder[2]), ChildOf(DocOrder[3]),
       ChildOf(DocOrder[4]), ChildOf(DocOrder[5]), ChildOf(DocOrder[6])]
  {
    var o := DocOrder;
    ShippedPrefixes();
    var c1, c2, c3, c4, c5, c6 := ChildOf(o[1]), ChildOf(o[2]), ChildOf(o[3]), ChildOf(o[4]), ChildOf(o[5]), ChildOf(o[6]);
    assert Children(o[..1], "gsap") == [];
    assert Children(o[..2], "gsap") == [c1];
    assert Children(o[..3], "gsap") == [c1] + [c2];
    assert Children(o[..4], "gsap") == [c1, c2] + [c3];
    assert Children(o[..5], "gsap") == [c1, c2, c3] + [c4];
    assert Children(o[..6], "gsap") == [c1, c2, c3, c4] + [c5];
    assert Children(o[..7], "gsap") == [c1, c2, c3, c4, c5] + [c6];
    assert Children(o[..8], "gsap") == [c1, c2, c3, c4, c5, c6] + [];
  }

  lemma ShippedFramerChildren()
    ensures Children(DocOrder, "framer-motion") == [ChildOf(DocOrder[7])]
  {
    var o := DocOrder;
    ShippedPrefixes();
    assert Children(o[..1], "framer-motion") == [];
    assert Children(o[..2], "framer-motion") == [];
    assert Children(o[..3], "framer-motion") == [];
    assert Children(o[..4], "framer-motion") == [];
    assert Children(o[..5], "framer-motion") == [];
    assert Children(o[..6], "framer-motion") == [];
    assert Children(o[..7], "framer-motion") == [];
    assert Children(o[..8], "framer-motion") == [ChildOf(o[7])];
  }

  lemma ShippedHref0()
    ensures Href(DocOrder[0].slug) == "/learn/getting-started"
  {
    assert DocOrder[0].slug == ["getting-started"];
  }

  lemma ShippedHref1()
    ensures Href(DocOrder[1].slug) == "/learn/gsap/basics"
  {
    assert DocOrder[1].slug == ["gsap", "basics"];
    GsapHref("basics");
    assert "/learn/gsap/" + "basics" == "/learn/gsap/basics";
  }

  lemma ShippedHref2()
    ensures Href(DocOrder[2].slug) == "/learn/gsap/usegasap-hook"
  {
    assert DocOrder[2].slug == ["gsap", "usegasap-hook"];
    GsapHref("usegasap-hook");
    assert "/learn/gsap/" + "usegasap-hook" == "/learn/gsap/usegasap-hook";
  }

  lemma ShippedHref3()
    ensures Href(DocOrder[3].slug) == "/learn/gsap/from-method"
  {
    assert DocOrder[3].slug == ["gsap", "from-method"];
    GsapHref("from-method");
    assert "/learn/gsap/" + "from-method" == "/learn/gsap/from-method";
  }

  lemma ShippedHref4()
    ensures Href(DocOrder[4].slug) == "/learn/gsap/fromto-method"
  {
    assert DocOrder[4].slug == ["gsap", "fromto-method"];
    GsapHref("fromto-method");
    assert "/learn/gsap/" + "fromto-method" == "/learn/gsap/fromto-method";
  }

  lemma ShippedHref5()
    ensures Href(DocOrder[5].slug) == "/learn/gsap/timeline-method"
  {
    assert DocOrder[5].slug == ["gsap", "timeline-method"];
    GsapHref("timeline-method");
    assert "/learn/gsap/" + "timeline-method" == "/learn/gsap/timeline-method";
  }

  lemma ShippedHref6()
    ensures Href(DocOrder[6].slug) == "/learn/gsap/easing"
  {
    assert DocOrder[6].slug == ["gsap", "easing"];
    GsapHref("easing");
    assert "/learn/gsap/" + "easing" == "/learn/gsap/easing";
  }

  /** The href of a GSAP page. */
  lemma GsapHref(page: string)
    ensures Href(["gsap", page]) == "/learn/gsap/" + page
  {
    JoinPair("gsap", page);
    assert "/learn/" + "gsap" + "/" == "/learn/gsap/";
  }

  lemma ShippedHref7()
    ensures Href(DocOrder[7].slug) == "/learn/framer-motion/introduction"
  {
    assert DocOrder[7].slug == ["framer-motion", "introduction"];
    FramerIntroductionHref();
  }

  lemma FramerIntroductionHref()
    ensures Href(["framer-motion", "introduction"]) == "/learn/framer-motion/introduction"
  {
    JoinPair("framer-motion", "introduction");
    assert "/learn/" + "framer-motion" == "/learn/framer-motion";
    assert "/learn/framer-motion" + "/" == "/learn/framer-motion/";
    assert "/learn/framer-motion/" + "introduction" == "/learn/framer-motion/introduction";
  }

  lemma JoinPair(a: string, b: string)
    ensures Href([a, b]) == "/learn/" + a + "/" + b
  {
    assert [a, b][1..] == [b];
    assert Join([b], "/") == b;
    assert Join([a, b], "/") == a + "/" + b;
  }

  /** The shipped sidebar: Getting Started, then GSAP with its six pages, then Framer Motion with one. */
  lemma ShippedNavigation()
    ensures NavigationOf(DocOrder, Categories) == [
      NavNode("Getting Started", BookOpen, Some("/learn/getting-started"), None),
      NavNode("GSAP", Layers, None, Some([
        NavChild("Basics", "/learn/gsap/basics"),
        NavChild("useGSAP Hook", "/learn/gsap/usegasap-hook"),
        NavChild("from() Method", "/learn/gsap/from-method"),
        NavChild("fromTo() Method", "/learn/gsap/fromto-method"),
        NavChild("Timeline", "/learn/gsap/timeline-method"),
        NavChild("Easing", "/learn/gsap/easing")])),
      NavNode("Framer Motion", Sparkles, None, Some([
        NavChild("Introduction", "/learn/framer-motion/introduction")]))
    ]
  {
    ShippedStandalone();
    ShippedGroups();
    ShippedGsapChildren();
    ShippedFramerChildren();
    ShippedHref0();
    ShippedHref1();
    ShippedHref2();
    ShippedHref3();
    ShippedHref4();
    ShippedHref5();
    ShippedHref6();
    ShippedHref7();
  }

  lemma ShippedGroups()
    ensures Groups(CategoryKeys(DocOrder), DocOrder, Categories) ==
      [GroupNode(Categories["gsap"], Children(DocOrder, "gsap")),
       GroupNode(Categories["framer-motion"], Children(DocOrder, "framer-motion"))]
  {
    ShippedKeys();
    var keys := ["gsap", "framer-motion"];
    assert keys[..1] == ["gsap"] && keys[..1][..0] == [];
  }
}
