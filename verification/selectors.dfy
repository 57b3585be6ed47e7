/** Selector and path generation for a matched node (engine/engine.go):
    the one-node selector, the opening tag rebuilt from a node, and the two
    functions that apply them along the node's ancestor chain.

    Go walks parent links; here the chain is passed explicitly, node first
    and root last, as the loop `for c := n; c != nil; c = c.Parent` meets
    it.  The output uses the notation of W3C Selectors Level 3 (type
    selector, section 6.1; `[att]`, section 6.3.1; `.class`, section 6.4;
    `#id`, section 6.5; the child combinator ` > `, section 8.2) but no
    identifier is escaped, so the text is not always a valid selector. */
module Selectors {
  import opened Text
  import opened Html

  // ----- one node -----

  /** The marked fields of a class or id value, in order: `mark` followed by
      the field, for each field. */
  function Marked(mark: char, fs: seq<string>): string
    decreases |fs|
  {
    if fs == [] then "" else Marked(mark, fs[..|fs| - 1]) + [mark] + fs[|fs| - 1]
  }

  /** What one attribute adds to the selector of a node: `.c` per class
      field, `#i` per id field, and `[key]` for any other key, whose value
      is left out. */
  function NodeFragment(a: Attr): string {
    if a.key == "class" then Marked('.', Fields(a.val))
    else if a.key == "id" then Marked('#', Fields(a.val))
    else "[" + a.key + "]"
  }

  /** The selector of one node: its tag name followed by the fragments of
      its attributes, in attribute order. */
  function NodeSelector(n: Node): string {
    n.data + ConcatMap(NodeFragment, n.attrs)
  }

  /** Each whitespace-separated class becomes its own `.class`: the node
      `<div class="a b">` has the selector `div.a.b`. */
  lemma ClassFieldsExample()
    ensures NodeSelector(Node(ElementNode, "div", [Attr("class", "a b")], [])) == "div.a.b"
  {
    var v, fs := "a b", ["a", "b"];
    assert Fields(v) == fs by {
      assert Word(v) == "a";
      assert v[1..] == " b" && " b"[1..] == "b";
      FieldsOfWord("b");
    }
    assert Marked('.', fs) == ".a.b" by {
      assert fs[..1] == ["a"] && fs[..1][..0] == [];
    }
    var attrs := [Attr("class", v)];
    assert attrs[..0] == [];
    assert ConcatMap(NodeFragment, attrs) == ".a.b";
  }

  /** The value of an attribute other than `class` and `id` does not show in
      the node's selector. */
  lemma OtherValueOmitted(n: Node, i: nat, v: string)
    requires i < |n.attrs| && n.attrs[i].key != "class" && n.attrs[i].key != "id"
    ensures NodeSelector(n.(attrs := n.attrs[i := Attr(n.attrs[i].key, v)])) == NodeSelector(n)
  {
    var a, b := n.attrs[..i], n.attrs[i + 1..];
    var x, y := n.attrs[i], Attr(n.attrs[i].key, v);
    assert n.attrs == a + [x] + b;
    assert n.attrs[i := y] == a + [y] + b;
    ConcatMapAppend(NodeFragment, a + [x], b);
    ConcatMapAppend(NodeFragment, a + [y], b);
    ConcatMapAppend(NodeFragment, a, [x]);
    ConcatMapAppend(NodeFragment, a, [y]);
    assert ConcatMap(NodeFragment, [x]) == ConcatMap(NodeFragment, [y]) by {
      assert [x][..0] == [] && [y][..0] == [];
    }
  }

  /** Writes `mark` and the field for each whitespace-separated field of
      `val`, as both the `class` and the `id` case of `SingleSelector` do. */
  method WriteMarked(buff: string, mark: char, val: string) returns (out: string)
    ensures out == buff + Marked(mark, Fields(val))
  {
    var fields := Fields(val);
    out := buff;
    var j := 0;
    while j < |fields|
      invariant 0 <= j <= |fields|
      invariant out == buff + Marked(mark, fields[..j])
    {
      assert fields[..j + 1][..j] == fields[..j];
      out := out + [mark] + fields[j];
      j := j + 1;
    }
    assert fields[..j] == fields;
  }

  /** `SingleSelector` (engine/engine.go:129-151). */
  method SingleSelector(n: Node) returns (s: string)
    ensures s == NodeSelector(n)
  {
    var buff := n.data;
    var i := 0;
    while i < |n.attrs|
      invariant 0 <= i <= |n.attrs|
      invariant buff == n.data + ConcatMap(NodeFragment, n.attrs[..i])
    {
      var a := n.attrs[i];
      ConcatMapStep(NodeFragment, n.attrs, i, n.data, buff);
      if a.key == "class" {
        buff := WriteMarked(buff, '.', a.val);
      } else if a.key == "id" {
        buff := WriteMarked(buff, '#', a.val);
      } else {
        buff := buff + "[" + a.key + "]";
      }
      i := i + 1;
    }
    assert n.attrs[..i] == n.attrs;
    s := buff;
  }

  /** What one attribute adds to a rebuilt opening tag: a space, then the
      bare key when the value is empty and `key="value"` otherwise. */
  function AttrText(a: Attr): string {
    " " + (if a.val == "" then a.key else a.key + "=" + GoQuote(a.val))
  }

  /** The opening tag rebuilt from a node; text and closing tag are never
      part of it. */
  function OpeningTag(n: Node): string {
    "<" + n.data + ConcatMap(AttrText, n.attrs) + ">"
  }

  /** An attribute is written as its bare key when its value is empty, and
      otherwise as `key="value"` with the value unchanged when it holds no
      quote or backslash. */
  lemma AttrTextPlain(a: Attr)
    requires forall i :: 0 <= i < |a.val| ==> a.val[i] != '"' && a.val[i] != '\\'
    ensures a.val == "" ==> AttrText(a) == " " + a.key
    ensures a.val != "" ==> AttrText(a) == " " + a.key + "=\"" + a.val + "\""
  {
    GoQuotePlain(a.val);
    assert " " + (a.key + "=" + ("\"" + a.val + "\"")) == " " + a.key + "=\"" + a.val + "\"";
  }

  /** `<a href="http://x">` is rebuilt exactly. */
  lemma ReconstructExample(n: Node)
    requires n == Node(ElementNode, "a", [Attr("href", "http://x")], [])
    ensures OpeningTag(n) == "<a href=\"http://x\">"
  {
    OpeningTagOne(n);
    HrefPlain(n.attrs[0]);
    HrefTagText();
  }

  /** The literal text of the rebuilt `<a href="http://x">`. */
  lemma HrefTagText()
    ensures "<" + "a" + " href=\"http://x\"" + ">" == "<a href=\"http://x\">"
  {
  }

  /** The attribute `href="http://x"` is written as it reads. */
  lemma HrefPlain(a: Attr)
    requires a == Attr("href", "http://x")
    ensures AttrText(a) == " href=\"http://x\""
  {
    HrefValuePlain(a.val);
    AttrTextPlain(a);
    HrefAttrText();
  }

  /** `http://x` holds no quote or backslash. */
  lemma HrefValuePlain(v: string)
    requires v == "http://x"
    ensures forall i :: 0 <= i < |v| ==> v[i] != '"' && v[i] != '\\'
  {
  }

  /** The literal text of the attribute `href="http://x"`. */
  lemma HrefAttrText()
    ensures " " + "href" + "=\"" + "http://x" + "\"" == " href=\"http://x\""
  {
  }

  /** A tag with one attribute is rebuilt from that attribute's text. */
  lemma OpeningTagOne(n: Node)
    requires |n.attrs| == 1
    ensures OpeningTag(n) == "<" + n.data + AttrText(n.attrs[0]) + ">"
  {
    var a := n.attrs[0];
    assert n.attrs[..|n.attrs| - 1] == [];
    assert ConcatMap(AttrText, n.attrs) == "" + AttrText(a) == AttrText(a);
  }

  /** A rebuilt tag opens with `<` and the tag name and ends with `>`. */
  lemma OpeningTagShape(n: Node)
    ensures var r := OpeningTag(n); "<" + n.data <= r && r[|r| - 1] == '>'
  {
  }

  /** Writes one attribute of a rebuilt opening tag, as the body of the
      loop in `Reconstruct` does. */
  method WriteAttr(buff: string, a: Attr) returns (out: string)
    ensures out == buff + AttrText(a)
  {
    out := buff + " ";
    if a.val == "" {
      out := out + a.key;
    } else {
      out := out + a.key + "=" + GoQuote(a.val);
    }
  }

  /** `Reconstruct` (engine/engine.go:176-190). */
  method Reconstruct(n: Node) returns (s: string)
    ensures s == OpeningTag(n)
  {
    var buff := "<" + n.data;
    var i := 0;
    while i < |n.attrs|
      invariant 0 <= i <= |n.attrs|
      invariant buff == "<" + n.data + ConcatMap(AttrText, n.attrs[..i])
    {
      ConcatMapStep(AttrText, n.attrs, i, "<" + n.data, buff);
      buff := WriteAttr(buff, n.attrs[i]);
      i := i + 1;
    }
    assert n.attrs[..i] == n.attrs;
    s := buff + ">";
  }

  // ----- the ancestor chain -----

  /** The nodes of a chain that have a non-empty `Data`, in chain order
      (node first); the document node and other nameless nodes drop out. */
  function Kept(chain: seq<Node>): (r: seq<Node>)
    ensures |r| <= |chain|
    ensures forall i :: 0 <= i < |r| ==> r[i].data != ""
    ensures |chain| > 0 && chain[0].data != "" ==> |r| > 0 && r[0] == chain[0]
    decreases |chain|
  {
    if chain == [] then []
    else
      var init, last := chain[..|chain| - 1], chain[|chain| - 1];
      assert chain == init + [last];
      assert |init| > 0 ==> init[0] == chain[0];
      Kept(init) + (if last.data == "" then [] else [last])
  }

  /** The kept nodes are exactly the named nodes of the chain. */
  lemma {:induction false} KeptNamed(chain: seq<Node>, m: Node)
    ensures m in Kept(chain) <==> m in chain && m.data != ""
    decreases |chain|
  {
    if chain != [] {
      var init, last := chain[..|chain| - 1], chain[|chain| - 1];
      assert chain == init + [last];
      KeptNamed(init, m);
    }
  }

  function Reverse<T>(s: seq<T>): (r: seq<T>)
    ensures |r| == |s| && forall i :: 0 <= i < |s| ==> r[i] == s[|s| - 1 - i]
    decreases |s|
  {
    if s == [] then [] else [s[|s| - 1]] + Reverse(s[..|s| - 1])
  }

  /** The kept nodes of a chain, root first: the order in which both
      `QuerySelector` and `NodePath` emit them. */
  function RootFirst(chain: seq<Node>): seq<Node> {
    Reverse(Kept(chain))
  }

  /** The one-node selector of each node, in order. */
  function SelectorsOf(ns: seq<Node>): (r: seq<string>)
    ensures |r| == |ns|
    decreases |ns|
  {
    if ns == [] then [] else [NodeSelector(ns[0])] + SelectorsOf(ns[1..])
  }

  lemma {:induction false} SelectorsOfAt(ns: seq<Node>, i: nat)
    requires i < |ns|
    ensures SelectorsOf(ns)[i] == NodeSelector(ns[i])
    decreases i
  {
    if i > 0 {
      SelectorsOfAt(ns[1..], i - 1);
    }
  }

  /** The full selector of a node: the selectors of its kept ancestors and
      of itself, root first, joined by the child combinator. */
  function ChainSelector(chain: seq<Node>): string {
    Join(SelectorsOf(RootFirst(chain)), " > ")
  }

  /** The first loop of both `QuerySelector` and `NodePath`: the nodes of
      the chain with a non-empty `Data`, node first. */
  method NamedPath(chain: seq<Node>) returns (path: seq<Node>)
    ensures path == Kept(chain)
  {
    path := [];
    var c := 0;
    while c < |chain|
      invariant 0 <= c <= |chain|
      invariant path == Kept(chain[..c])
    {
      assert chain[..c + 1][..c] == chain[..c];
      if chain[c].data != "" {
        path := path + [chain[c]];
      }
      c := c + 1;
    }
    assert chain[..c] == chain;
  }

  /** `QuerySelector` (engine/engine.go:109-126). */
  method QuerySelector(chain: seq<Node>) returns (s: string)
    ensures s == ChainSelector(chain)
  {
    var path := NamedPath(chain);
    ghost var sels := SelectorsOf(Reverse(path));
    var buff := "";
    var i: int := |path| - 1;
    while i >= 0
      invariant -1 <= i < |path|
      invariant buff == JoinPrefix(sels, |path| - 1 - i, " > ")
    {
      var sel := SingleSelector(path[i]);
      SelectorAt(path, i);
      EmitStep(sels, |path| - 1 - i, " > ", buff, sel);
      buff := buff + sel;
      if i > 0 {
        buff := buff + " > ";
      }
      i := i - 1;
    }
    s := buff;
  }

  /** The selector of `path[i]` is the one emitted after those of the
      nodes after it. */
  lemma SelectorAt(path: seq<Node>, i: nat)
    requires i < |path|
    ensures SelectorsOf(Reverse(path))[|path| - 1 - i] == NodeSelector(path[i])
  {
    var k := |path| - 1 - i;
    assert Reverse(path)[k] == path[i];
    SelectorsOfAt(Reverse(path), k);
  }

  /** One turn of the second loop of `QuerySelector`: the text emitted so
      far, then the next selector, then the separator unless it was the last. */
  lemma EmitStep(sels: seq<string>, k: nat, sep: string, buff: string, sel: string)
    requires k < |sels| && sel == sels[k] && buff == JoinPrefix(sels, k, sep)
    ensures JoinPrefix(sels, k + 1, sep) == buff + sel + (if k + 1 < |sels| then sep else "")
  {
    JoinStep(sels, k, sep);
    if k + 1 == |sels| {
      assert sels[..k + 1] == sels;
    }
  }

  /** The rebuilt opening tag of each node, in order. */
  function Tags(ns: seq<Node>): (r: seq<string>)
    ensures |r| == |ns| && forall i :: 0 <= i < |ns| ==> r[i] == OpeningTag(ns[i])
    decreases |ns|
  {
    if ns == [] then [] else Tags(ns[..|ns| - 1]) + [OpeningTag(ns[|ns| - 1])]
  }

  /** `NodePath` (engine/engine.go:156-171): one rebuilt opening tag per kept
      node of the chain, root first. */
  method NodePath(chain: seq<Node>) returns (r: seq<string>)
    ensures r == Tags(RootFirst(chain))
  {
    var path := NamedPath(chain);
    ghost var rev := Reverse(path);
    r := [];
    var i: int := |path| - 1;
    while i >= 0
      invariant -1 <= i < |path|
      invariant r == Tags(rev[..|path| - 1 - i])
    {
      var tag := Reconstruct(path[i]);
      assert rev[..|path| - i][..|path| - 1 - i] == rev[..|path| - 1 - i];
      assert rev[|path| - 1 - i] == path[i];
      r := r + [tag];
      i := i - 1;
    }
    assert rev[..|path|] == rev;
  }

  /** The nodes of a chain with a non-empty `Data`. */
  function Named(chain: seq<Node>): nat
    decreases |chain|
  {
    if chain == [] then 0 else (if chain[0].data != "" then 1 else 0) + Named(chain[1..])
  }

  /** Both `QuerySelector` and `NodePath` have one entry per named node of
      the chain. */
  lemma {:induction false} KeptCount(chain: seq<Node>)
    ensures |RootFirst(chain)| == Named(chain)
    decreases |chain|
  {
    if chain != [] {
      var init := chain[..|chain| - 1];
      KeptCount(init);
      NamedSnoc(init, chain[|chain| - 1]);
      assert init + [chain[|chain| - 1]] == chain;
    }
  }

  lemma {:induction false} NamedSnoc(chain: seq<Node>, m: Node)
    ensures Named(chain + [m]) == Named(chain) + (if m.data != "" then 1 else 0)
    decreases |chain|
  {
    if chain == [] {
      assert [] + [m] == [m];
    } else {
      assert (chain + [m])[1..] == chain[1..] + [m];
      NamedSnoc(chain[1..], m);
    }
  }

  /** The ancestor chain of a node: each entry is a child of the next, and
      the last entry is the document node, whose `Data` is empty. */
  predicate AncestorChain(chain: seq<Node>) {
    |chain| >= 1
    && (forall i :: 0 <= i < |chain| - 1 ==> chain[i] in chain[i + 1].children)
    && chain[|chain| - 1].kind == DocumentNode && chain[|chain| - 1].data == ""
  }

  /** When every ancestor below the document node is named, the selector and
      the path have one entry per level of depth of the node, the node
      itself included. */
  lemma DepthOfPath(chain: seq<Node>)
    requires AncestorChain(chain)
    requires forall i :: 0 <= i < |chain| - 1 ==> chain[i].data != ""
    ensures |RootFirst(chain)| == |chain| - 1
  {
    KeptCount(chain);
    NamedAllButLast(chain);
  }

  lemma {:induction false} NamedAllButLast(chain: seq<Node>)
    requires |chain| >= 1 && chain[|chain| - 1].data == ""
    requires forall i :: 0 <= i < |chain| - 1 ==> chain[i].data != ""
    ensures Named(chain) == |chain| - 1
    decreases |chain|
  {
    if |chain| > 1 {
      NamedAllButLast(chain[1..]);
    }
  }

  /** The full selector of a named node starts with the selector of the
      root of its kept chain and ends with the node's own selector; the
      separator never leads or trails. */
  lemma ChainSelectorEnds(chain: seq<Node>)
    requires |chain| > 0 && chain[0].data != ""
    ensures var p := RootFirst(chain);
      |p| > 0 && NodeSelector(p[0]) <= ChainSelector(chain)
      && EndsWith(ChainSelector(chain), NodeSelector(chain[0]))
  {
    var p := RootFirst(chain);
    var sels := SelectorsOf(p);
    SelectorsOfAt(p, 0);
    SelectorsOfAt(p, |p| - 1);
    assert p[|p| - 1] == Kept(chain)[0] == chain[0];
    JoinLast(sels, " > ");
  }
}
