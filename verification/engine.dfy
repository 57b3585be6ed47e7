/** The query engine of engine/engine.go: compiling a query string into a
    `Query`, matching a query against a node, collecting the matches of a
    document in order, and writing a query back out as a selector. */
module Engine {
  import opened Text
  import opened Html
  import opened Lexer
  import opened Selectors

  datatype Option<T> = None | Some(value: T)

  /** The outcome of compiling a query: the query, or the error it was
      rejected with. */
  datatype Result<T> = Ok(value: T) | Err(error: QueryError)

  /** The tokens a query was split into, and the errors recorded while
      splitting it. */
  datatype Lexed = Lexed(tokens: seq<string>, errors: seq<QueryError>)

  /** A compiled query: the tag an element must have (any tag when empty)
      and the attributes it must carry, a value `""` asking only for the
      key to be present. */
  datatype Query = Query(tag: string, attrs: map<string, string>)
  {
    // ----- matching -----

    /** `Query.Match` stated on the whole map at once: an element node with
        the required tag that satisfies every required attribute. */
    predicate Matches(n: Node) {
      n.kind == ElementNode && (tag == "" || n.data == tag)
      && forall k :: k in attrs ==> Satisfies(n.attrs, k, attrs[k])
    }

    /** `Query.Match` (engine/engine.go:58-83), with the keys visited in the
        order `keys` gives, which can be any order Go's map iteration takes. */
    method Match(n: Node, keys: seq<string>) returns (b: bool)
      requires Enumerates(keys, attrs)
      ensures b == Matches(n)
    {
      if n.kind != ElementNode || (tag != "" && n.data != tag) {
        return false;
      }
      if |attrs| == 0 {
        assert attrs == map[];
        return true;
      }
      if |n.attrs| == 0 {
        assert keys[0] in attrs;
        return false;
      }
      var i := 0;
      while i < |keys|
        invariant 0 <= i <= |keys|
        invariant forall l :: 0 <= l < i ==> Satisfies(n.attrs, keys[l], attrs[keys[l]])
      {
        var key := keys[i];
        var val := attrs[key];
        var j := 0;
        while j < |n.attrs|
          invariant 0 <= j <= |n.attrs|
          invariant FirstValue(n.attrs[j..], key) == FirstValue(n.attrs, key)
        {
          assert n.attrs[j..][1..] == n.attrs[j + 1..];
          if n.attrs[j].key == key {
            if val == "" || val == n.attrs[j].val {
              break;
            }
            return false;
          }
          j := j + 1;
        }
        if j == |n.attrs| {
          return false;
        }
        i := i + 1;
      }
      forall k | k in attrs
        ensures Satisfies(n.attrs, k, attrs[k])
      {
        var l :| 0 <= l < |keys| && keys[l] == k;
      }
      return true;
    }

    // ----- finding -----

    /** The nodes of `ns` that match, in order. */
    function MatchesIn(ns: seq<Node>): (r: seq<Node>)
      ensures |r| <= |ns|
      decreases |ns|
    {
      if ns == [] then []
      else MatchesIn(ns[..|ns| - 1]) + (if Matches(ns[|ns| - 1]) then [ns[|ns| - 1]] else [])
    }

    /** The recursive visitor of `FindIn` (engine/engine.go:94-102): the node
        first, then the subtrees of its children, appending every match to
        `acc`. */
    method Visit(n: Node, keys: seq<string>, acc: seq<Node>) returns (out: seq<Node>)
      requires Enumerates(keys, attrs)
      ensures out == acc + MatchesIn(PreOrder(n))
      decreases n, 1
    {
      var m := Match(n, keys);
      var head := if m then acc + [n] else acc;
      assert head == acc + MatchesIn([n]) by {
        MatchesInOne(this, n);
      }
      out := VisitChildren(n.children, keys, head);
      VisitJoin(this, n, acc, head, out);
    }

    /** The loop of the visitor over the children of a node, from left to
        right (engine/engine.go:99-101). */
    method VisitChildren(cs: seq<Node>, keys: seq<string>, acc: seq<Node>) returns (out: seq<Node>)
      requires Enumerates(keys, attrs)
      ensures out == acc + MatchesIn(PreOrderAll(cs))
      decreases cs, 0
    {
      out := acc;
      var i := 0;
      while i < |cs|
        invariant 0 <= i <= |cs|
        invariant out == acc + MatchesIn(PreOrderAll(cs[..i]))
      {
        var before := out;
        out := Visit(cs[i], keys, out);
        VisitStep(this, cs, i, acc, before, out);
        i := i + 1;
      }
      assert cs[..i] == cs;
    }

    /** `FindIn` (engine/engine.go:88-106) on the outcome of parsing the
        document: a parse failure is passed on, and otherwise the matches
        are collected in pre-order. */
    method FindIn(doc: Parse, keys: seq<string>) returns (r: Found)
      requires Enumerates(keys, attrs)
      ensures doc.ParseFailed? ==> r == ReadFailed(doc.reason)
      ensures doc.Parsed? ==> r == Found(MatchesIn(PreOrder(doc.root)))
    {
      if doc.ParseFailed? {
        return ReadFailed(doc.reason);
      }
      var matches := Visit(doc.root, keys, []);
      assert [] + MatchesIn(PreOrder(doc.root)) == MatchesIn(PreOrder(doc.root));
      r := Found(matches);
    }

    // ----- selector -----

    /** The query's entries, in the order `keys` gives. */
    function Entries(keys: seq<string>): (r: seq<Attr>)
      requires forall i :: 0 <= i < |keys| ==> keys[i] in attrs
      ensures |r| == |keys| && forall i :: 0 <= i < |keys| ==> r[i] == Attr(keys[i], attrs[keys[i]])
    {
      seq(|keys|, i requires 0 <= i < |keys| => Attr(keys[i], attrs[keys[i]]))
    }

    /** The selector of the query for one enumeration of its keys: the tag,
        then one fragment per entry in that order. */
    function SelectorText(keys: seq<string>): string
      requires forall i :: 0 <= i < |keys| ==> keys[i] in attrs
    {
      tag + ConcatMap(QueryFragment, Entries(keys))
    }

    /** `Query.Selector` (engine/engine.go:193-215), with the keys visited in
        the order `keys` gives. */
    method Selector(keys: seq<string>) returns (s: string)
      requires Enumerates(keys, attrs)
      ensures s == SelectorText(keys)
    {
      var es := Entries(keys);
      var buff := tag;
      var i := 0;
      while i < |keys|
        invariant 0 <= i <= |keys|
        invariant buff == tag + ConcatMap(QueryFragment, es[..i])
      {
        var key := keys[i];
        var val := attrs[key];
        assert es[i] == Attr(key, val);
        ConcatMapStep(QueryFragment, es, i, tag, buff);
        buff := WriteQueryFragment(buff, key, val);
        i := i + 1;
      }
      assert es[..i] == es;
      s := buff;
    }
  }

  /** Writes the fragment of one required attribute, as the body of the loop
      in `Query.Selector` does. */
  method WriteQueryFragment(buff: string, key: string, val: string) returns (out: string)
    ensures out == buff + QueryFragment(Attr(key, val))
  {
    if key == "class" {
      out := WriteMarked(buff, '.', val);
    } else if key == "id" {
      out := WriteMarked(buff, '#', val);
    } else {
      out := buff + "[" + key + "=" + GoQuote(val) + "]";
    }
  }

  // ----- filtering and visiting -----

  /** Filtering distributes over concatenation. */
  lemma {:induction false} MatchesInAppend(q: Query, xs: seq<Node>, ys: seq<Node>)
    ensures q.MatchesIn(xs + ys) == q.MatchesIn(xs) + q.MatchesIn(ys)
    decreases |ys|
  {
    if ys == [] {
      assert xs + ys == xs;
    } else {
      var init := ys[..|ys| - 1];
      assert (xs + ys)[..|xs + ys| - 1] == xs + init;
      assert (xs + ys)[|xs + ys| - 1] == ys[|ys| - 1];
      MatchesInAppend(q, xs, init);
    }
  }

  /** A node is kept exactly when it is among `ns` and matches. */
  lemma {:induction false} MatchesInExactly(q: Query, ns: seq<Node>, m: Node)
    ensures m in q.MatchesIn(ns) <==> m in ns && q.Matches(m)
    decreases |ns|
  {
    if ns != [] {
      var init := ns[..|ns| - 1];
      assert ns == init + [ns[|ns| - 1]];
      MatchesInExactly(q, init, m);
    }
  }

  /** A single node is kept exactly when it matches. */
  lemma MatchesInOne(q: Query, n: Node)
    ensures q.MatchesIn([n]) == if q.Matches(n) then [n] else []
  {
    assert [n][..0] == [];
  }

  /** The node's own match, then those of its children's subtrees. */
  lemma VisitJoin(q: Query, n: Node, acc: seq<Node>, head: seq<Node>, out: seq<Node>)
    requires head == acc + q.MatchesIn([n])
    requires out == head + q.MatchesIn(PreOrderAll(n.children))
    ensures out == acc + q.MatchesIn(PreOrder(n))
  {
    MatchesInAppend(q, [n], PreOrderAll(n.children));
  }

  /** The subtree of one more child, filtered, extends the matches. */
  lemma VisitStep(q: Query, cs: seq<Node>, i: nat, acc: seq<Node>, before: seq<Node>, after: seq<Node>)
    requires i < |cs|
    requires before == acc + q.MatchesIn(PreOrderAll(cs[..i]))
    requires after == before + q.MatchesIn(PreOrder(cs[i]))
    ensures after == acc + q.MatchesIn(PreOrderAll(cs[..i + 1]))
  {
    PreOrderAllStep(cs, i);
    MatchesInAppend(q, PreOrderAll(cs[..i]), PreOrder(cs[i]));
  }

  /** A parsed document, or the reason the HTML parser gave up. */
  datatype Parse = Parsed(root: Node) | ParseFailed(reason: string)

  /** What `FindIn` returns: the matches, or the parser's error. */
  datatype Found = Found(nodes: seq<Node>) | ReadFailed(reason: string)

  /** `keys` lists every key of `m` exactly once: one order in which Go may
      iterate over the map. */
  ghost predicate Enumerates(keys: seq<string>, m: map<string, string>) {
    (forall k :: k in m <==> k in keys)
    && forall i, j :: 0 <= i < j < |keys| ==> keys[i] != keys[j]
  }

  /** The value of the first attribute with key `key`, if there is one. */
  function FirstValue(attrs: seq<Attr>, key: string): Option<string>
    decreases |attrs|
  {
    if attrs == [] then None
    else if attrs[0].key == key then Some(attrs[0].val)
    else FirstValue(attrs[1..], key)
  }

  /** A required attribute holds when the first attribute with its key has
      the required value, or the required value is empty. */
  predicate Satisfies(attrs: seq<Attr>, key: string, val: string) {
    match FirstValue(attrs, key)
    case None => false
    case Some(v) => val == "" || val == v
  }

  /** What one required attribute adds to the selector of a query: as for a
      node for `class` and `id`, and `[key="value"]` for any other key. */
  function QueryFragment(a: Attr): string {
    if a.key == "class" then Marked('.', Fields(a.val))
    else if a.key == "id" then Marked('#', Fields(a.val))
    else "[" + a.key + "=" + GoQuote(a.val) + "]"
  }

  // ----- compiling a query -----

  /** `strings.TrimPrefix(s, "<")` followed by `strings.TrimSuffix(s, ">")`. */
  function TrimQuery(s: string): (r: string)
    ensures r == s || "<" + r == s || r + ">" == s || "<" + r + ">" == s
  {
    var a := if |s| > 0 && s[0] == '<' then s[1..] else s;
    if |a| > 0 && a[|a| - 1] == '>' then a[..|a| - 1] else a
  }

  /** At most one `<` and one `>` are stripped: whatever follows a stripped
      `<` or precedes a stripped `>` is kept, even another `<` or `>`. */
  lemma TrimQueryOnce(s: string, inner: string)
    ensures TrimQuery("<" + inner + ">") == inner
    ensures (|s| == 0 || (s[0] != '<' && s[|s| - 1] != '>')) ==> TrimQuery(s) == s
  {
    assert ("<" + inner + ">")[1..] == inner + ">";
    assert (inner + ">")[..|inner|] == inner;
  }

  /** The token loop of `NewQuery`, continued from a lexer whose cursor is at
      `j`, with the tokens `toks` and the errors `errs` collected so far:
      tokens are read until one comes back empty. */
  function Tokenize(t: string, j: nat, toks: seq<string>, errs: seq<QueryError>): (r: Lexed)
    requires j <= |t| + 1
    ensures toks <= r.tokens && errs <= r.errors
    ensures forall i :: |toks| <= i < |r.tokens| ==> r.tokens[i] != ""
    decreases |t| + 1 - j
  {
    var s := NextTokenLoop(t, j, "", errs);
    if s.tok == "" then Lexed(toks, s.errs)
    else Tokenize(t, s.pos, toks + [s.tok], s.errs)
  }

  /** What the lexer makes of a whole query string. */
  function Lex(s: string): Lexed {
    Tokenize(TrimQuery(s), 0, [], [])
  }

  /** The position of the first `c` in `s`, or `|s|` when there is none. */
  function IndexOf(s: string, c: char): (r: nat)
    ensures r <= |s| && (r < |s| ==> s[r] == c)
    ensures forall i :: 0 <= i < r ==> s[i] != c
    decreases |s|
  {
    if s == [] then 0 else if s[0] == c then 0 else 1 + IndexOf(s[1..], c)
  }

  /** The key and value a token stands for: split at its first `=`, the
      value possibly empty; a token without `=` is a key with value `""`. */
  function SplitAttr(tok: string): (kv: (string, string))
    ensures '=' in tok ==> kv.0 + "=" + kv.1 == tok && '=' !in kv.0
    ensures '=' !in tok ==> kv == (tok, "")
  {
    if '=' in tok then
      var k := IndexOf(tok, '=');
      assert tok[..k] + "=" + tok[k + 1..] == tok;
      (tok[..k], tok[k + 1..])
    else (tok, "")
  }

  /** A token is split at its first `=`: any later `=` stays in the value. */
  lemma SplitAtFirst(k: string, v: string)
    requires '=' !in k
    ensures SplitAttr(k + "=" + v) == (k, v)
  {
    var tok := k + "=" + v;
    var i := IndexOf(tok, '=');
    assert tok[|k|] == '=';
    assert tok[..i] == k && tok[i + 1..] == v;
  }

  /** The attribute map built from the tokens after the tag, in order: a
      later token overwrites the entry of an earlier one with the same key. */
  function AttrsOf(ts: seq<string>): map<string, string>
    decreases |ts|
  {
    if ts == [] then map[]
    else
      var kv := SplitAttr(ts[|ts| - 1]);
      AttrsOf(ts[..|ts| - 1])[kv.0 := kv.1]
  }

  /** The keys of the map are exactly the keys of the tokens. */
  lemma {:induction false} AttrsOfKeys(ts: seq<string>, k: string)
    ensures k in AttrsOf(ts) <==> exists i :: 0 <= i < |ts| && SplitAttr(ts[i]).0 == k
    decreases |ts|
  {
    if ts != [] {
      var init := ts[..|ts| - 1];
      AttrsOfKeys(init, k);
      if exists i :: 0 <= i < |init| && SplitAttr(init[i]).0 == k {
        var i :| 0 <= i < |init| && SplitAttr(init[i]).0 == k;
        assert ts[i] == init[i];
      }
      if exists i :: 0 <= i < |ts| && SplitAttr(ts[i]).0 == k {
        var i :| 0 <= i < |ts| && SplitAttr(ts[i]).0 == k;
        if i < |init| {
          assert init[i] == ts[i];
        }
      }
    }
  }

  /** The value of a key is the value of the last token with that key. */
  lemma {:induction false} AttrsOfLastWins(ts: seq<string>, i: nat)
    requires i < |ts|
    requires forall l :: i < l < |ts| ==> SplitAttr(ts[l]).0 != SplitAttr(ts[i]).0
    ensures var kv := SplitAttr(ts[i]); kv.0 in AttrsOf(ts) && AttrsOf(ts)[kv.0] == kv.1
    decreases |ts|
  {
    if i < |ts| - 1 {
      var init := ts[..|ts| - 1];
      assert init[i] == ts[i];
      assert SplitAttr(ts[|ts| - 1]).0 != SplitAttr(ts[i]).0;
      AttrsOfLastWins(init, i);
    }
  }

  /** The query a string compiles to: the first recorded error if there is
      one, the empty-query error if there are no tokens, and otherwise the
      first token as the tag and the rest as attributes. */
  function Compile(s: string): (r: Result<Query>)
    ensures r.Ok? ==> r.value.tag != ""
    ensures r.Ok? <==> Lex(s).errors == [] && Lex(s).tokens != []
  {
    var l := Lex(s);
    if l.errors != [] then Err(l.errors[0])
    else if l.tokens == [] then Err(Empty)
    else Ok(Query(l.tokens[0], AttrsOf(l.tokens[1..])))
  }

  /** The token loop of `NewQuery` (engine/engine.go:23-31): a fresh lexer
      over `text` reads tokens until one comes back empty. */
  method ReadTokens(text: string) returns (l: Lexed)
    ensures l == Tokenize(text, 0, [], [])
  {
    var p := new Parser(text);
    p.Read();
    var tokens: seq<string> := [];
    var t := p.NextToken();
    while t != ""
      invariant p.Valid() && p.text == text
      invariant (if t == "" then Lexed(tokens, p.errors)
                 else Tokenize(text, p.pos, tokens + [t], p.errors)) == Tokenize(text, 0, [], [])
      decreases |text| + 1 - p.pos + (if t == "" then 0 else 1)
    {
      tokens := tokens + [t];
      t := p.NextToken();
    }
    l := Lexed(tokens, p.errors);
  }

  /** The attribute loop of `NewQuery` (engine/engine.go:44-51). */
  method BuildAttrs(ts: seq<string>) returns (attrs: map<string, string>)
    ensures attrs == AttrsOf(ts)
  {
    attrs := map[];
    var i := 0;
    while i < |ts|
      invariant 0 <= i <= |ts|
      invariant attrs == AttrsOf(ts[..i])
    {
      assert ts[..i + 1][..i] == ts[..i];
      var tok := ts[i];
      if '=' in tok {
        var k := IndexOf(tok, '=');
        attrs := attrs[tok[..k] := tok[k + 1..]];
      } else {
        attrs := attrs[tok := ""];
      }
      i := i + 1;
    }
    assert ts[..i] == ts;
  }

  /** `NewQuery` (engine/engine.go:20-54). */
  method NewQuery(s: string) returns (r: Result<Query>)
    ensures r == Compile(s)
  {
    var l := ReadTokens(TrimQuery(s));
    if |l.errors| > 0 {
      return Err(l.errors[0]);
    }
    if |l.tokens| == 0 {
      return Err(Empty);
    }
    var attrs := BuildAttrs(l.tokens[1..]);
    r := Ok(Query(l.tokens[0], attrs));
  }

  /** A query whose first rune is whitespace is empty: the first token comes
      back empty, so no token is read at all. */
  lemma LeadingSpaceEmpty(s: string)
    requires |s| > 0 && IsSpace(s[0])
    ensures Lex(s) == Lexed([], [])
    ensures Compile(s) == Err(Empty)
  {
    var t := TrimQuery(s);
    assert |t| > 0 && t[0] == s[0];
    assert NextTokenLoop(t, 0, "", []).tok == "";
  }

  /** A word the lexer takes as one unquoted token. */
  predicate PlainWord(w: string) {
    w != "" && forall k :: 0 <= k < |w| ==> Plain(w[k])
  }

  /** One plain word read as a token: the cursor stops past the single
      space after it, or at the end of the text. */
  lemma WordToken(t: string, j: nat, w: string, errs: seq<QueryError>)
    requires PlainWord(w) && j + |w| <= |t| && t[j..j + |w|] == w
    requires j + |w| == |t| || (j + |w| + 1 < |t| && t[j + |w|] == ' ' && !IsSpace(t[j + |w| + 1]))
    ensures NextTokenLoop(t, j, "", errs) == Scan(w, if j + |w| == |t| then |t| else j + |w| + 1, errs)
  {
    var k := j + |w|;
    forall i | j <= i < k
      ensures Plain(t[i])
    {
      assert t[i] == w[i - j];
    }
    UnquotedToken(t, j, k, "", errs);
    assert "" + t[j..k] == w;
    if k < |t| {
      assert SkipSpaceEnd(t, k + 1) == k + 1;
    }
  }

  /** Plain words separated by single spaces lex back into the same words,
      with no error. */
  lemma {:induction false} TokenizeWords(t: string, j: nat, ws: seq<string>, toks: seq<string>, errs: seq<QueryError>)
    requires j <= |t| && t[j..] == Join(ws, " ")
    requires forall i :: 0 <= i < |ws| ==> PlainWord(ws[i])
    ensures Tokenize(t, j, toks, errs) == Lexed(toks + ws, errs)
    decreases |ws|
  {
    if ws == [] {
      assert At(t, j) == '\0';
      assert toks + ws == toks;
    } else {
      var w := ws[0];
      var k := j + |w|;
      assert k <= |t| && t[j..k] == w by {
        assert w <= t[j..];
      }
      if |ws| == 1 {
        WordToken(t, j, w, errs);
        assert toks + ws == toks + [w];
      } else {
        var rest := ws[1..];
        JoinedTail(t, j, ws);
        assert !IsSpace(t[k + 1]) by {
          assert rest[0] <= t[k + 1..] && PlainWord(rest[0]);
          assert Plain(rest[0][0]);
        }
        WordToken(t, j, w, errs);
        TokenizeWords(t, k + 1, rest, toks + [w], errs);
        assert toks + [w] + rest == toks + ws;
      }
    }
  }

  /** Text holding a join of non-empty words continues, after the first
      word, with a space and the join of the others. */
  lemma JoinedTail(t: string, j: nat, ws: seq<string>)
    requires j <= |t| && t[j..] == Join(ws, " ") && |ws| >= 2 && ws[1] != ""
    ensures var k := j + |ws[0]|;
      k + 1 < |t| && t[k] == ' ' && t[k + 1..] == Join(ws[1..], " ")
  {
    var w, rest := ws[0], ws[1..];
    JoinFront(ws, " ");
    assert |Join(rest, " ")| >= |rest[0]| > 0;
    var k := j + |w|;
    assert t[j..][|w|] == ' ' && t[j..][|w| + 1..] == Join(rest, " ");
  }

  /** A query of plain words compiles to its first word as the tag and the
      other words as attributes. */
  lemma CompileWords(ws: seq<string>)
    requires |ws| > 0 && forall i :: 0 <= i < |ws| ==> PlainWord(ws[i])
    ensures Compile(Join(ws, " ")) == Ok(Query(ws[0], AttrsOf(ws[1..])))
  {
    var s := Join(ws, " ");
    assert Lex(s) == Tokenize(s, 0, [], []) by {
      var first, last := ws[0], ws[|ws| - 1];
      assert s[0] == first[0] && Plain(first[0]) by {
        assert first <= s && PlainWord(first);
      }
      assert s[|s| - 1] == last[|last| - 1] && Plain(last[|last| - 1]) by {
        JoinLast(ws, " ");
        assert PlainWord(last);
      }
      TrimQueryOnce(s, "");
    }
    assert s[0..] == s;
    TokenizeWords(s, 0, ws, [], []);
    assert [] + ws == ws;
  }

  // ----- worked queries -----

  /** Nothing to read, with or without the angle brackets: the query is
      empty. */
  lemma EmptyQueries()
    ensures Compile("") == Err(Empty)
    ensures Compile("<>") == Err(Empty)
  {
    assert TrimQuery("<>") == "";
  }

  /** A lone tag name is a query for that tag with no attributes. */
  lemma TagOnlyQuery()
    ensures Compile("div") == Ok(Query("div", map[]))
  {
    var ws := ["div"];
    assert PlainWord(ws[0]);
    CompileWords(ws);
    assert ws[1..] == [];
  }

  /** A query that starts with a plain word and one space, and does not
      end with `>`: the word is the first token and lexing goes on right
      after the space. */
  lemma LeadingWord(s: string, tag: string)
    requires PlainWord(tag) && |tag| + 1 < |s|
    requires WrittenAt(s, 0, tag) && s[|tag|] == ' ' && !IsSpace(s[|tag| + 1]) && s[|s| - 1] != '>'
    ensures Lex(s) == Tokenize(s, |tag| + 1, [tag], [])
  {
    assert s[0] == tag[0] && Plain(tag[0]);
    TrimQueryOnce(s, "");
    assert s[0..|tag|] == tag;
    WordToken(s, 0, tag, []);
    assert [] + [tag] == [tag];
  }

  /** `w` is written in `s` from position `j` on. */
  predicate WrittenAt(s: string, j: nat, w: string) {
    j + |w| <= |s| && forall i :: 0 <= i < |w| ==> s[j + i] == w[i]
  }

  /** A quoted value closed in the middle of a token: the rune right after
      the closing quote is dropped unseen and the token runs on into the
      text after it.  With `key"val"?rest` written from `j` to the end of the
      text, the token read from `j` is `key`, `val` and `rest` run together. */
  lemma QuotedValueJoinsRest(s: string, j: nat, key: string, val: string, rest: string)
    requires PlainWord(key) && PlainWord(rest)
    requires forall i :: 0 <= i < |val| ==> Quotable(val[i])
    requires var b := j + |key|; var c := b + 1 + |val|;
      WrittenAt(s, j, key) && b < |s| && s[b] == '"' && WrittenAt(s, b + 1, val) && c < |s| && s[c] == '"'
      && WrittenAt(s, c + 2, rest) && |s| == c + 2 + |rest|
    ensures NextTokenLoop(s, j, "", []) == Scan(key + val + rest, |s|, [])
  {
    var b := j + |key|;
    var c := b + 1 + |val|;
    PlainSlice(s, j, key, "");
    assert "" + key == key;
    QuotedSlice(s, b, val, key);
    PlainSlice(s, c + 2, rest, key + val);
  }

  /** In `div class="foo bar" id=x` the space after the closing quote is
      lost, so the second token runs on into `id=x`. */
  lemma QuotedQueryExample(s: string)
    requires s == "div class=\"foo bar\" id=x"
    ensures NextTokenLoop(s, 4, "", []) == Scan("class=foo barid=x", 24, [])
  {
    QuotedQueryWords();
    QuotedQueryLayout(s);
    QuotedValueJoinsRest(s, 4, "class=", "foo bar", "id=x");
    assert "class=" + "foo bar" + "id=x" == "class=foo barid=x";
  }

  /** The words of `div class="foo bar" id=x` around the quotes are plain and
      the quoted text may stand inside quotes. */
  lemma QuotedQueryWords()
    ensures PlainWord("class=") && PlainWord("id=x")
    ensures forall i :: 0 <= i < |"foo bar"| ==> Quotable("foo bar"[i])
  {
  }

  /** Where each piece of `div class="foo bar" id=x` sits. */
  lemma QuotedQueryLayout(s: string)
    requires s == "div class=\"foo bar\" id=x"
    ensures WrittenAt(s, 4, "class=") && s[10] == '"' && WrittenAt(s, 11, "foo bar") && s[18] == '"'
    ensures WrittenAt(s, 20, "id=x") && |s| == 24
  {
  }

  /** A run of plain runes is taken into the token as it is. */
  lemma PlainSlice(s: string, j: nat, w: string, buff: string)
    requires WrittenAt(s, j, w) && forall i :: 0 <= i < |w| ==> Plain(w[i])
    ensures NextTokenLoop(s, j, buff, []) == NextTokenLoop(s, j + |w|, buff + w, [])
  {
    forall i | j <= i < j + |w|
      ensures Plain(s[i])
    {
      assert s[j + (i - j)] == w[i - j];
    }
    UnquotedRun(s, j, j + |w|, buff, []);
    assert s[j..j + |w|] == w;
  }

  /** A quoted run adds its content to the token and skips the rune after
      the closing quote. */
  lemma QuotedSlice(s: string, b: nat, val: string, buff: string)
    requires b < |s| && s[b] == '"' && WrittenAt(s, b + 1, val) && b + 1 + |val| < |s| && s[b + 1 + |val|] == '"'
    requires forall i :: 0 <= i < |val| ==> Quotable(val[i])
    ensures NextTokenLoop(s, b, buff, []) == NextTokenLoop(s, b + |val| + 3, buff + val, [])
  {
    var c := b + 1 + |val|;
    forall i | b < i < c
      ensures Quotable(s[i])
    {
      assert s[b + 1 + (i - b - 1)] == val[i - b - 1];
    }
    QuotedSpan(s, b, c, buff, []);
    assert s[b + 1..c] == val;
  }

  /** A quote that is never closed fails the whole query. */
  lemma UnterminatedValue(tag: string, val: string)
    requires PlainWord(tag)
    requires forall i :: 0 <= i < |val| ==> Quotable(val[i])
    ensures Compile(tag + " " + "\"" + val) == Err(Unterminated)
  {
    var s := tag + " " + "\"" + val;
    var a := |tag|;
    assert WrittenAt(s, 0, tag) && s[a] == ' ' && s[a + 1] == '"' && s[a + 2..] == val;
    assert s[|s| - 1] != '>' by {
      if val != [] {
        assert s[|s| - 1] == val[|val| - 1];
      }
    }
    LeadingWord(s, tag);
    UnterminatedTail(s, a + 1, val, [tag]);
  }

  /** From an opening quote that is never closed, lexing ends with the rest
      of the text as the last token and `Unterminated` as the only error. */
  lemma UnterminatedTail(s: string, j: nat, val: string, toks: seq<string>)
    requires j < |s| && s[j] == '"' && s[j + 1..] == val
    requires forall i :: 0 <= i < |val| ==> Quotable(val[i])
    ensures Tokenize(s, j, toks, []).errors == [Unterminated]
  {
    assert NextTokenLoop(s, j, "", []) == Scan(val, |s| + 1, [Unterminated]) by {
      forall i | j < i < |s|
        ensures Quotable(s[i])
      {
        assert s[i] == val[i - j - 1];
      }
      UnterminatedQuote(s, j, "", []);
      assert "" + s[j + 1..] == val;
    }
    assert NextTokenLoop(s, |s| + 1, "", [Unterminated]) == Scan("", |s| + 1, [Unterminated]);
  }

  /** An angle bracket inside the query is an illegal character. */
  lemma IllegalCharQuery()
    ensures Compile("a<b") == Err(IllegalChar)
  {
    var s := "a<b";
    TrimQueryOnce(s, "");
    assert NextTokenLoop(s, 1, "a", []) == Scan("", 1, [IllegalChar]);
  }

  /** An opening quote with no closing quote fails the query. */
  lemma UnterminatedQuery()
    ensures Compile("a \"unterminated") == Err(Unterminated)
  {
    assert "a \"unterminated" == "a" + " " + "\"" + "unterminated";
    assert PlainWord("a");
    UnterminatedValue("a", "unterminated");
  }

  // ----- what matching means -----

  /** The first attribute with a key gives its value. */
  lemma {:induction false} FirstValueAt(attrs: seq<Attr>, key: string, i: nat)
    requires i < |attrs| && attrs[i].key == key
    requires forall l :: 0 <= l < i ==> attrs[l].key != key
    ensures FirstValue(attrs, key) == Some(attrs[i].val)
    decreases i
  {
    if i > 0 {
      assert attrs[0].key != key;
      FirstValueAt(attrs[1..], key, i - 1);
    }
  }

  /** No value is found exactly when no attribute has the key. */
  lemma {:induction false} FirstValueNone(attrs: seq<Attr>, key: string)
    ensures FirstValue(attrs, key) == None <==> forall l :: 0 <= l < |attrs| ==> attrs[l].key != key
    decreases |attrs|
  {
    if attrs != [] {
      FirstValueNone(attrs[1..], key);
      assert forall l :: 1 <= l < |attrs| ==> attrs[l] == attrs[1..][l - 1];
    }
  }

  /** An attribute written after the others is seen only when none of them
      has its key. */
  lemma {:induction false} FirstValueAppend(attrs: seq<Attr>, a: Attr, key: string)
    ensures FirstValue(attrs + [a], key)
            == if FirstValue(attrs, key).Some? then FirstValue(attrs, key)
               else if a.key == key then Some(a.val) else None
    decreases |attrs|
  {
    if attrs == [] {
      assert [] + [a] == [a];
    } else {
      assert (attrs + [a])[1..] == attrs[1..] + [a];
      FirstValueAppend(attrs[1..], a, key);
    }
  }

  /** Adding an attribute at the end of a node changes nothing when the
      query does not ask for its key (extra attributes are ignored) or when
      the node already has that key (the first occurrence decides). */
  lemma AppendedAttrIgnored(q: Query, n: Node, a: Attr)
    requires a.key !in q.attrs || FirstValue(n.attrs, a.key).Some?
    ensures q.Matches(n.(attrs := n.attrs + [a])) == q.Matches(n)
  {
    forall k | k in q.attrs
      ensures Satisfies(n.attrs + [a], k, q.attrs[k]) == Satisfies(n.attrs, k, q.attrs[k])
    {
      FirstValueAppend(n.attrs, a, k);
    }
  }

  /** A query with no required attribute matches exactly the element nodes
      with its tag, or every element node when its tag is empty. */
  lemma NoRequiredAttrs(q: Query, n: Node)
    requires q.attrs == map[]
    ensures q.Matches(n) <==> n.kind == ElementNode && (q.tag == "" || n.data == q.tag)
  {
  }

  /** Values are compared whole: a required class "foo" is not met by
      `<div class="foo bar">` and is met by `<div class="foo">`. */
  lemma ExactValueExample()
    ensures !Query("div", map["class" := "foo"]).Matches(Node(ElementNode, "div", [Attr("class", "foo bar")], []))
    ensures Query("div", map["class" := "foo"]).Matches(Node(ElementNode, "div", [Attr("class", "foo")], []))
  {
    var q := Query("div", map["class" := "foo"]);
    assert "class" in q.attrs;
    assert |"foo bar"| != |"foo"|;
  }

  /** A required attribute with an empty value asks for presence only: the
      query with no tag that requires `id` matches an element exactly when
      the element has an `id` attribute, whatever its tag and value. */
  lemma PresenceExample(n: Node)
    requires n.kind == ElementNode
    ensures Query("", map["id" := ""]).Matches(n)
            <==> exists i :: 0 <= i < |n.attrs| && n.attrs[i].key == "id"
  {
    var q := Query("", map["id" := ""]);
    FirstValueNone(n.attrs, "id");
    assert "id" in q.attrs;
  }

  // ----- what finding means -----

  /** The nodes found in a tree are exactly its matching nodes. */
  lemma FoundExactly(q: Query, root: Node, m: Node)
    ensures m in q.MatchesIn(PreOrder(root)) <==> m in PreOrder(root) && q.Matches(m)
  {
    MatchesInExactly(q, PreOrder(root), m);
  }

  /** Matches come out in document order: two sibling leaves that both
      match, under a root that does not, are found first sibling first. */
  lemma SiblingsInOrder(q: Query, root: Node, p1: Node, p2: Node)
    requires !q.Matches(root) && root.children == [p1, p2]
    requires p1.children == [] && p2.children == []
    requires q.Matches(p1) && q.Matches(p2)
    ensures q.MatchesIn(PreOrder(root)) == [p1, p2]
  {
    var cs := root.children;
    assert PreOrder(p1) == [p1] && PreOrder(p2) == [p2];
    assert cs[..1] == [p1] && cs[..1][..0] == [];
    assert PreOrderAll(cs[..1]) == [p1];
    assert cs[..|cs| - 1] == cs[..1];
    assert PreOrderAll(cs) == [p1, p2];
    assert PreOrder(root) == [root] + [p1] + [p2];
    MatchesInAppend(q, [root], [p1]);
    MatchesInAppend(q, [root] + [p1], [p2]);
    assert [root][..0] == [] && [p1][..0] == [] && [p2][..0] == [];
  }

  // ----- what the query selector means -----

  lemma {:induction false} DistinctCount<T>(xs: seq<T>, x: T)
    requires forall i, j :: 0 <= i < j < |xs| ==> xs[i] != xs[j]
    ensures multiset(xs)[x] == if x in xs then 1 else 0
    decreases |xs|
  {
    if xs != [] {
      var init := xs[..|xs| - 1];
      assert xs == init + [xs[|xs| - 1]];
      DistinctCount(init, x);
    }
  }

  /** The entries of an enumeration are the pairs of the map. */
  lemma EntriesMember(q: Query, keys: seq<string>, a: Attr)
    requires Enumerates(keys, q.attrs)
    ensures a in q.Entries(keys) <==> a.key in q.attrs && q.attrs[a.key] == a.val
  {
    if a.key in q.attrs && q.attrs[a.key] == a.val {
      var i :| 0 <= i < |keys| && keys[i] == a.key;
      assert q.Entries(keys)[i] == a;
    }
  }

  /** Whatever order the map is iterated in, the selector is built from
      the same entries, each once: two runs on the same query differ at
      most in the order of their fragments. */
  lemma EntriesPermute(q: Query, keys1: seq<string>, keys2: seq<string>)
    requires Enumerates(keys1, q.attrs) && Enumerates(keys2, q.attrs)
    ensures multiset(q.Entries(keys1)) == multiset(q.Entries(keys2))
    ensures forall a :: multiset(q.Entries(keys1))[a] <= 1
  {
    var e1, e2 := q.Entries(keys1), q.Entries(keys2);
    forall a
      ensures multiset(e1)[a] == multiset(e2)[a] && multiset(e1)[a] <= 1
    {
      EntriesMember(q, keys1, a);
      EntriesMember(q, keys2, a);
      DistinctCount(e1, a);
      DistinctCount(e2, a);
    }
  }

  /** For `class` and `id` the query selector writes what the node selector
      writes for an element carrying the same attributes. */
  lemma ClassIdSelector(q: Query, keys: seq<string>)
    requires Enumerates(keys, q.attrs)
    requires forall k :: k in q.attrs ==> k == "class" || k == "id"
    ensures q.SelectorText(keys) == NodeSelector(Node(ElementNode, q.tag, q.Entries(keys), []))
  {
    var es := q.Entries(keys);
    forall i | 0 <= i < |es|
      ensures QueryFragment(es[i]) == NodeFragment(es[i])
    {
      assert es[i].key in q.attrs;
    }
    ConcatMapAgree(QueryFragment, NodeFragment, es);
  }

  /** Any other key is written with its value quoted, where the node
      selector writes the key alone. */
  lemma OtherKeyFragment(a: Attr)
    requires a.key != "class" && a.key != "id"
    requires forall i :: 0 <= i < |a.val| ==> a.val[i] != '"' && a.val[i] != '\\'
    ensures QueryFragment(a) == "[" + a.key + "=\"" + a.val + "\"]"
    ensures NodeFragment(a) == "[" + a.key + "]"
  {
    GoQuotePlain(a.val);
    assert "[" + a.key + "=" + ("\"" + a.val + "\"") + "]" == "[" + a.key + "=\"" + a.val + "\"]";
  }
}
