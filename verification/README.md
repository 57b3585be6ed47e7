# tagpath engine, modelled in Dafny

This project models the `engine` package of tagpath, a Go tool that finds
elements in an HTML document from a short hand-written query and describes
them as CSS-style selectors. The package has three parts:

- **Query lexer and compiler.** A stateful scanner over the runes of a query
  such as `<div class="a b" id=x>` splits it into tokens, recording errors as
  it goes. `NewQuery` turns the tokens into a `Query` with a tag and a map of
  required attributes.
- **Matcher and tree walk.** `Query.Match` tests one node. `FindIn` collects
  every matching node of a parsed document in pre-order.
- **Selector and path generation.** These build strings from a node, its
  ancestor chain, or a query:
  - `SingleSelector` writes the selector of one node;
  - `QuerySelector` writes the selector of a node's ancestor chain;
  - `Reconstruct` writes the opening tag of a node;
  - `NodePath` writes the opening tags of the chain;
  - `Query.Selector` writes the selector of a query.

The modules follow the program:

- `Text` (text.dfy) models the pieces of Go's `unicode`, `strings` and `strconv`
  packages that the engine uses: whitespace, `strings.Fields` and `%q`
  quoting. It also defines `Join`, the specification of the loop in
  `QuerySelector` that writes ` > ` between selectors; the engine itself
  never calls `strings.Join`.
- `Html` (html.dfy) models the parsed tree as an inductive datatype, with its
  pre-order.
- `Lexer` (lexer.dfy) models `engine/parser.go`.
  - `Parser` is a class with the fields `ch`, `pos`, `readpos` and `errors`.
  - Its methods (`Read`, `SkipSpace`, `Error`, `ReadString`, `NextToken`) are
    proved against the functions `SkipSpaceEnd`, `ReadStringAt` and
    `NextTokenLoop`.
  - Lemmas state what those functions do to the text: unquoted runs, quoted
    spans, the dropped rune after a closing quote, unterminated quotes and
    illegal characters.
- `Selectors` (selectors.dfy) models `SingleSelector`, `Reconstruct`,
  `QuerySelector` and `NodePath`. Each is a loop method proved against a
  function, with lemmas about the ancestor chain.
- `Engine` (engine.dfy) models `NewQuery`, `Query.Match`, `FindIn` and
  `Query.Selector`. `Compile` specifies `NewQuery`; `Query.Matches` specifies
  `Query.Match`; `Query.MatchesIn` over the pre-order specifies `FindIn`.

Go iterates over a map in an unspecified order. `Query.Match` and
`Query.Selector` therefore take the keys as an explicit sequence, `keys`,
that lists every key of the map exactly once (`Enumerates`).

- `Query.Match` is proved equal to the order-free predicate `Query.Matches`
  for every such sequence.
- For `Query.Selector`, `EntriesPermute` proves that any two orders write
  the same entries, so two runs differ at most in the order of their
  fragments.

The ancestor chain reached through `Parent` links is passed as a sequence
that starts at the node and ends at the root.

One might expect `div class="foo bar" id=x` to compile to
`{class: "foo bar", id: "x"}`. The code does something else, and the model
follows the code.

- `readString` reads past the closing quote.
- `nextToken` then reads once more, so the rune after a closing quote is
  dropped without being examined.
- The space before `id=x` is therefore lost. The second token is
  `class=foo barid=x`, so the query's only attribute is `class` with value
  `foo barid=x`.

`Lexer.QuotedSpan` states this behaviour, and
`Engine.QuotedValueJoinsRest` states it for a whole `key"value" rest`
token. `Engine.QuotedQueryExample` states it for this very query: scanning
from `class` gives the token `class=foo barid=x` and ends at the end of the
text.

## Model

| member | source | states |
|---|---|---|
| Text.Fields | engine/engine.go:135 | every field of `strings.Fields` is non-empty and holds no whitespace |
| Text.FieldsKeepText | engine/engine.go:135 | the fields, concatenated, are exactly the non-whitespace runes of the value, in order |
| Text.FieldsOfWord | engine/engine.go:141 | a non-empty value without whitespace is a single field |
| Text.FieldsOfJoin | engine/engine.go:135 | `strings.Fields` gives back exactly the non-empty, whitespace-free words that single spaces join: it never splits inside a word |
| Text.GoQuote | engine/engine.go:185 | `%q` output starts and ends with a double quote |
| Text.GoQuoteRoundTrip | engine/engine.go:185 | dropping the quotes and unescaping gives back the quoted string |
| Text.UnescapeEscape | engine/engine.go:211 | escaping quote and backslash loses nothing |
| Text.GoQuotePlain | engine/engine.go:211 | a value with no quote or backslash is quoted as itself between quotes |
| Text.ConcatMapAppend | engine/engine.go:132-149 | a builder's output over two runs of items is the output of each run, in order |
| Html.PreOrder | engine/engine.go:95-102 | a subtree's pre-order starts with its root |
| Lexer.Parser.constructor | engine/engine.go:23-25 | a fresh parser holds the text, has read nothing and has no errors |
| Lexer.Parser.Read | engine/parser.go:17-25 | `pos` becomes the old `readpos`, `readpos` grows by exactly one, `ch` is the rune there or NUL past the end, errors are unchanged |
| Lexer.SkipSpaceEnd | engine/parser.go:27-31 | the stop position is not on whitespace and every rune passed over is whitespace |
| Lexer.Parser.SkipSpace | engine/parser.go:27-31 | the cursor moves to `SkipSpaceEnd`: afterwards `ch` is not whitespace and only whitespace was consumed; errors are unchanged |
| Lexer.Parser.Error | engine/parser.go:83-85 | the error is appended after those already recorded, and the cursor does not move |
| Lexer.ReadStringLoop | engine/parser.go:64-79 | the cursor never moves back, and at most one error is appended to the existing ones |
| Lexer.ReadStringAt | engine/parser.go:58-81 | on a quote the cursor advances, and errors are only appended |
| Lexer.Parser.ReadString | engine/parser.go:58-81 | the returned text, new cursor and errors are those of `ReadStringAt` from the old cursor |
| Lexer.NextTokenLoop | engine/parser.go:33-56 | the cursor never moves back, errors are only appended, and a non-empty token consumed at least one rune |
| Lexer.Parser.NextToken | engine/parser.go:33-56 | the token, new cursor and errors are those of `NextTokenLoop` from the old cursor |
| Lexer.UnquotedRun | engine/parser.go:45-52 | a run of plain runes is appended to the token verbatim |
| Lexer.UnquotedToken | engine/parser.go:45-50 | an unquoted token is the maximal plain run; at whitespace the whole whitespace run is skipped before returning |
| Lexer.QuotedRun | engine/parser.go:64-79 | inside quotes every rune up to the closing quote is taken verbatim, whitespace included |
| Lexer.QuotedSpan | engine/parser.go:41-52 | a quoted span adds its inner runes without the quotes, and scanning resumes two past the closing quote, so the rune after it is dropped unseen |
| Lexer.UnterminatedRun | engine/parser.go:69-72 | a quote never closed takes the rest of the text and appends `Unterminated` |
| Lexer.UnterminatedQuote | engine/parser.go:41-52 | the token keeps the partial quoted content, one `Unterminated` error is added and the cursor ends past the end |
| Lexer.IllegalRun | engine/parser.go:73-75 | a `<` or `>` inside quotes appends `IllegalChar` and the quoted text is discarded |
| Lexer.IllegalInQuote | engine/parser.go:73-75 | after an illegal rune inside quotes, `nextToken` steps over it and keeps scanning with the token it had before the quote |
| Lexer.IllegalCharStops | engine/parser.go:38-40 | an unquoted `<` or `>` appends `IllegalChar` and returns an empty token without advancing |
| Engine.TrimQuery | engine/engine.go:21-22 | the result is the input with at most one leading `<` and at most one trailing `>` removed |
| Engine.TrimQueryOnce | engine/engine.go:21-22 | exactly one pair of brackets is removed; a query without them is unchanged |
| Engine.Tokenize | engine/engine.go:29-31 | tokens and errors only grow, and every token read is non-empty |
| Engine.IndexOf | engine/engine.go:46 | the position of the first `=`, and none before it |
| Engine.SplitAttr | engine/engine.go:45-50 | a token with `=` splits at its first `=` and rejoins to itself; a token without `=` is a key with value `""` |
| Engine.SplitAtFirst | engine/engine.go:46 | any later `=` stays in the value |
| Engine.AttrsOfKeys | engine/engine.go:44-51 | the map's keys are exactly the keys of the attribute tokens |
| Engine.AttrsOfLastWins | engine/engine.go:47 | a later token with the same key overwrites an earlier one |
| Engine.Compile | engine/engine.go:32-53 | a query is built exactly when no error was recorded and some token was read, and its tag is then non-empty |
| Engine.ReadTokens | engine/engine.go:23-31 | the token loop over a fresh parser yields `Tokenize` of the text |
| Engine.BuildAttrs | engine/engine.go:44-51 | the attribute loop builds `AttrsOf` of the tokens after the tag |
| Engine.NewQuery | engine/engine.go:20-54 | the result is `Compile` of the query: the first error, the empty-query error, or the compiled query, never a partial one |
| Engine.LeadingSpaceEmpty | engine/parser.go:46-48 | a query that starts with whitespace reads no token and fails as empty |
| Engine.WordToken | engine/parser.go:45-50 | a plain word is read as one token, and the cursor stops past the single space after it |
| Engine.TokenizeWords | engine/engine.go:29-31 | words separated by single spaces lex back to the same words with no error |
| Engine.JoinedTail | engine/engine.go:29-31 | after its first word, a joined text goes on with a space and the join of the other words |
| Engine.CompileWords | engine/engine.go:20-54 | a query of plain words compiles to the first word as tag and the others as attributes |
| Engine.EmptyQueries | engine/engine.go:35-37 | `""` and `"<>"` both fail with the empty-query error |
| Engine.TagOnlyQuery | engine/engine.go:39-42 | `div` compiles to tag `div` with no attributes |
| Engine.LeadingWord | engine/parser.go:45-50 | a leading plain word and one space: the word is the first token and lexing resumes after the space |
| Engine.QuotedValueJoinsRest | engine/parser.go:41-52 | `key"val"?rest` lexes to the single token `key`+`val`+`rest`: the rune after the closing quote is lost |
| Engine.QuotedQueryExample | engine/parser.go:41-52 | in `div class="foo bar" id=x`, the token after `div` is `class=foo barid=x` with no errors, and scanning ends at the end of the text |
| Engine.PlainSlice | engine/parser.go:45-52 | a run of plain runes is taken into the token |
| Engine.QuotedSlice | engine/parser.go:41-52 | a quoted run adds its content and resumes three past its opening quote plus its length |
| Engine.UnterminatedValue | engine/engine.go:32-34 | a tag followed by an unclosed quote fails with `Unterminated` |
| Engine.UnterminatedTail | engine/parser.go:69-72 | from an unclosed quote, lexing ends with `Unterminated` as the only error |
| Engine.IllegalCharQuery | engine/parser.go:38-40 | `a<b` fails with `IllegalChar` |
| Engine.UnterminatedQuery | engine/parser.go:69-72 | `a "unterminated` fails with `Unterminated` |
| Engine.Query.Match | engine/engine.go:58-83 | for every order of the required keys the loop answers `Query.Matches` |
| Engine.FirstValueAt | engine/engine.go:71-75 | the first attribute with a key decides its value |
| Engine.FirstValueNone | engine/engine.go:71-80 | no value is found exactly when no attribute has the key |
| Engine.FirstValueAppend | engine/engine.go:71-79 | an attribute after the others is seen only when none of them has its key |
| Engine.AppendedAttrIgnored | engine/engine.go:70-81 | an extra attribute changes nothing when its key is not required or is already present |
| Engine.NoRequiredAttrs | engine/engine.go:59-65 | with no required attribute, exactly the element nodes with the tag match (any element when the tag is empty) |
| Engine.ExactValueExample | engine/engine.go:73-74 | required class `foo` is not met by `class="foo bar"` and is met by `class="foo"` |
| Engine.PresenceExample | engine/engine.go:73 | a query requiring `id` with empty value matches an element exactly when it has an `id` attribute |
| Engine.Query.MatchesIn | engine/engine.go:96-98 | filtering never lengthens a sequence |
| Engine.MatchesInAppend | engine/engine.go:99-101 | filtering distributes over concatenation |
| Engine.MatchesInExactly | engine/engine.go:96-98 | a node is kept exactly when it is in the sequence and matches |
| Engine.MatchesInOne | engine/engine.go:96-98 | a single node is kept exactly when it matches |
| Engine.Query.Visit | engine/engine.go:95-102 | the visitor appends the matches of the subtree, in pre-order |
| Engine.Query.VisitChildren | engine/engine.go:99-101 | the children's subtrees are visited left to right, appending their matches |
| Engine.VisitJoin | engine/engine.go:95-102 | the node's own match comes before those of its children |
| Engine.VisitStep | engine/engine.go:99-101 | visiting one more child extends the matches by its subtree's matches |
| Engine.Query.FindIn | engine/engine.go:88-106 | a parse failure is passed on; otherwise the result is the pre-order of the document filtered by `Matches` |
| Engine.FoundExactly | engine/engine.go:93-103 | a node is found exactly when it is in the tree and matches |
| Engine.SiblingsInOrder | engine/engine.go:99-101 | two matching sibling leaves are found first sibling first |
| Engine.Query.Selector | engine/engine.go:193-215 | the output is the tag followed by the fragments of the entries in the given key order |
| Engine.EntriesMember | engine/engine.go:196 | the entries of any key order are exactly the pairs of the map |
| Engine.EntriesPermute | engine/engine.go:196 | any two key orders give the same entries, each once |
| Engine.ClassIdSelector | engine/engine.go:197-209 | for `class` and `id` the query selector writes what the node selector writes for the same attributes |
| Engine.OtherKeyFragment | engine/engine.go:210-211 | any other key is written `[key="value"]` by the query selector, where the node selector writes `[key]` |
| Selectors.ClassFieldsExample | engine/engine.go:133-139 | the node `<div class="a b">` has the selector `div.a.b` |
| Selectors.OtherValueOmitted | engine/engine.go:146-147 | the value of an attribute other than `class` and `id` does not affect the node's selector |
| Selectors.WriteMarked | engine/engine.go:135-139 | the mark and the field are written for each whitespace-separated field |
| Selectors.SingleSelector | engine/engine.go:129-151 | the output is the tag followed by one fragment per attribute, in attribute order |
| Selectors.OpeningTagShape | engine/engine.go:178-188 | a rebuilt tag starts with `<` and the tag name and ends with `>` |
| Selectors.AttrTextPlain | engine/engine.go:180-186 | an attribute with an empty value is written as its bare key; otherwise as `key="value"`, with the value unchanged when it holds no quote or backslash |
| Selectors.OpeningTagOne | engine/engine.go:178-188 | a node with one attribute is rebuilt as `<`, the tag name, that attribute's text and `>` |
| Selectors.ReconstructExample | engine/engine.go:176-190 | `<a href="http://x">` is rebuilt exactly as `<a href="http://x">` |
| Selectors.Reconstruct | engine/engine.go:176-190 | the output is `OpeningTag` of the node |
| Selectors.Kept | engine/engine.go:112-117 | the kept nodes are at most the chain, all named, and a named node is kept first |
| Selectors.KeptNamed | engine/engine.go:112-117 | a node is kept exactly when it is in the chain and has a non-empty `Data` |
| Selectors.NamedPath | engine/engine.go:112-117 | the first loop collects `Kept` of the chain |
| Selectors.Reverse | engine/engine.go:119 | the second loop visits the kept nodes in reverse |
| Selectors.SelectorsOf | engine/engine.go:120 | one selector per node |
| Selectors.SelectorsOfAt | engine/engine.go:120 | entry i is the selector of node i |
| Selectors.QuerySelector | engine/engine.go:109-126 | the output is the node selectors of the kept chain, root first, joined by ` > ` |
| Selectors.SelectorAt | engine/engine.go:119-120 | the node at `path[i]` is written in position `len(path)-1-i` |
| Selectors.EmitStep | engine/engine.go:119-124 | one turn writes the next selector and the separator, except after the last |
| Selectors.Tags | engine/engine.go:166-168 | one rebuilt opening tag per node, in order |
| Selectors.NodePath | engine/engine.go:156-171 | the output is the rebuilt opening tag of each kept node of the chain, root first |
| Selectors.KeptCount | engine/engine.go:156-171 | the path and the selector have one entry per named node of the chain |
| Selectors.NamedSnoc | engine/engine.go:112-117 | one more named node adds one entry |
| Selectors.DepthOfPath | engine/engine.go:156-171 | when every ancestor below the document node is named, the path has one entry per level of depth, the node included |
| Selectors.NamedAllButLast | engine/engine.go:112-117 | all named but the nameless document node: one entry fewer than the chain |
| Selectors.ChainSelectorEnds | engine/engine.go:119-124 | the full selector starts with the root's selector and ends with the node's own, so there is no leading or trailing separator |

## Left out

- `main.go` is not part of this model. It holds argument handling, reading
  a file or a URL, and printing.
- `html.Parse` inside `FindIn` is not modelled. `FindIn` takes its outcome
  as a `Parse` value: either a parsed tree, or an error passed on unchanged.
- The HTML tree keeps no parent or sibling pointers. Children are a
  sequence, and the ancestor chain is an explicit sequence from the node to
  the root. Pointer identity of nodes is not modelled; found nodes are
  values.
- Error messages are not modelled: errors are the three values
  `IllegalChar`, `Unterminated` and `Empty`, without the `fmt.Errorf` text.
- Text.GoQuote: escapes only `"` and `\`. The escapes `strconv.Quote`
  writes for non-printable runes are not modelled.
- Text.IsSpace: lists the runes for which Go's `unicode.IsSpace` holds. It
  is shared by the lexer and `strings.Fields`, as in the Go code.
- Go's map iteration order is not modelled as a random choice.
  `Query.Match` and `Query.Selector` instead take any enumeration of the
  keys as an argument.
- Engine.Query.Selector: proves the same entries for every key order, as
  a multiset. It does not describe how the full output strings of two
  orders relate.
- Strings are sequences of runes. The UTF-8 decoding of the query
  (`[]rune(s)`) and of the document is not modelled.
