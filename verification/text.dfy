/** The pieces of Go's `unicode`, `strings` and `strconv` packages that the
    engine relies on: whitespace classification, splitting on whitespace and
    double-quoting a string; and the separator join that specifies the
    selector path. */
module Text {

  /** `unicode.IsSpace`: the Latin-1 whitespace runes and, above Latin-1,
      the runes with the Unicode White_Space property. */
  predicate IsSpace(c: char) {
    c == '\t' || c == '\n' || c == '\U{000B}' || c == '\U{000C}' || c == '\r' || c == ' '
    || c == '\U{0085}' || c == '\U{00A0}' || c == '\U{1680}'
    || ('\U{2000}' <= c <= '\U{200A}')
    || c == '\U{2028}' || c == '\U{2029}' || c == '\U{202F}' || c == '\U{205F}' || c == '\U{3000}'
  }

  predicate NoSpace(s: string) {
    forall i :: 0 <= i < |s| ==> !IsSpace(s[i])
  }

  /** The characters of `s` that are not whitespace, in order. */
  function WithoutSpaces(s: string): (r: string)
    ensures NoSpace(r)
    ensures NoSpace(s) ==> r == s
  {
    if s == [] then []
    else if IsSpace(s[0]) then WithoutSpaces(s[1..])
    else [s[0]] + WithoutSpaces(s[1..])
  }

  lemma {:induction false} WithoutSpacesAppend(a: string, b: string)
    ensures WithoutSpaces(a + b) == WithoutSpaces(a) + WithoutSpaces(b)
  {
    if a == [] {
      assert a + b == b;
    } else {
      assert (a + b)[1..] == a[1..] + b;
      WithoutSpacesAppend(a[1..], b);
    }
  }

  /** The strings of `xs` concatenated front to back. */
  function Concat(xs: seq<string>): string {
    if xs == [] then [] else xs[0] + Concat(xs[1..])
  }

  /** The strings `f` gives for the elements of `xs`, one after the other:
      the text a builder holds after writing `f(x)` for each `x` in turn. */
  function ConcatMap<T>(f: T -> string, xs: seq<T>): string
    decreases |xs|
  {
    if xs == [] then "" else ConcatMap(f, xs[..|xs| - 1]) + f(xs[|xs| - 1])
  }

  /** Writing the text of one more element. */
  lemma ConcatMapStep<T>(f: T -> string, xs: seq<T>, i: nat, head: string, buff: string)
    requires i < |xs| && buff == head + ConcatMap(f, xs[..i])
    ensures buff + f(xs[i]) == head + ConcatMap(f, xs[..i + 1])
  {
    var prefix := xs[..i + 1];
    assert prefix[..i] == xs[..i] && prefix[i] == xs[i];
  }

  /** The text of two runs of elements is the text of each, in order. */
  lemma {:induction false} ConcatMapAppend<T>(f: T -> string, xs: seq<T>, ys: seq<T>)
    ensures ConcatMap(f, xs + ys) == ConcatMap(f, xs) + ConcatMap(f, ys)
    decreases |ys|
  {
    if ys == [] {
      assert xs + ys == xs;
    } else {
      var init := ys[..|ys| - 1];
      assert (xs + ys)[..|xs + ys| - 1] == xs + init;
      assert (xs + ys)[|xs + ys| - 1] == ys[|ys| - 1];
      ConcatMapAppend(f, xs, init);
    }
  }

  /** Two element texts that agree on every element give the same text. */
  lemma {:induction false} ConcatMapAgree<T>(f: T -> string, g: T -> string, xs: seq<T>)
    requires forall i :: 0 <= i < |xs| ==> f(xs[i]) == g(xs[i])
    ensures ConcatMap(f, xs) == ConcatMap(g, xs)
    decreases |xs|
  {
    if xs != [] {
      ConcatMapAgree(f, g, xs[..|xs| - 1]);
    }
  }

  /** The maximal prefix of `s` that holds no whitespace. */
  function Word(s: string): (w: string)
    requires s != [] && !IsSpace(s[0])
    ensures 0 < |w| <= |s| && w == s[..|w|] && NoSpace(w)
    ensures |w| == |s| || IsSpace(s[|w|])
    decreases |s|
  {
    if |s| == 1 || IsSpace(s[1]) then s[..1]
    else
      var w := Word(s[1..]);
      assert s[..|w| + 1] == [s[0]] + s[1..][..|w|];
      [s[0]] + w
  }

  /** `strings.Fields`: the maximal runs of non-whitespace characters of `s`,
      in order.  Each field is non-empty and holds no whitespace. */
  function Fields(s: string): (r: seq<string>)
    ensures forall i :: 0 <= i < |r| ==> r[i] != [] && NoSpace(r[i])
    decreases |s|
  {
    if s == [] then []
    else if IsSpace(s[0]) then Fields(s[1..])
    else
      var w := Word(s);
      [w] + Fields(s[|w|..])
  }

  /** The fields together hold exactly the non-whitespace characters of `s`,
      in order: splitting loses nothing but whitespace. */
  lemma {:induction false} FieldsKeepText(s: string)
    ensures Concat(Fields(s)) == WithoutSpaces(s)
    decreases |s|
  {
    if s == [] {
    } else if IsSpace(s[0]) {
      assert s == [s[0]] + s[1..];
      WithoutSpacesAppend([s[0]], s[1..]);
      FieldsKeepText(s[1..]);
    } else {
      var w := Word(s);
      assert s == w + s[|w|..];
      WithoutSpacesAppend(w, s[|w|..]);
      FieldsKeepText(s[|w|..]);
      assert Fields(s) == [w] + Fields(s[|w|..]);
      assert ([w] + Fields(s[|w|..]))[1..] == Fields(s[|w|..]);
    }
  }

  lemma {:induction false} FieldsOfWord(s: string)
    requires s != [] && NoSpace(s)
    ensures Fields(s) == [s]
  {
    var w := Word(s);
    assert w == s;
    assert s[|w|..] == [];
    assert Fields(s[|w|..]) == [];
  }

  /** The elements of `xs` with `sep` between each two of them, built from
      the back as a loop that appends grows its output.  It specifies the
      separator loop of `QuerySelector` and serves to state what
      `strings.Fields` gives back for single-spaced words. */
  function Join(xs: seq<string>, sep: string): (r: string)
    ensures |xs| > 0 ==> xs[0] <= r
    decreases |xs|
  {
    if |xs| == 0 then ""
    else if |xs| == 1 then xs[0]
    else
      var init := xs[..|xs| - 1];
      assert init[0] == xs[0];
      Join(init, sep) + sep + xs[|xs| - 1]
  }

  /** Joining is the same when read from the front: the first element, then
      the separator and the join of the rest. */
  lemma {:induction false} JoinFront(xs: seq<string>, sep: string)
    requires |xs| >= 2
    ensures Join(xs, sep) == xs[0] + sep + Join(xs[1..], sep)
    decreases |xs|
  {
    if |xs| == 2 {
      assert xs[1..] == [xs[1]];
    } else {
      var init, rest, last := xs[..|xs| - 1], xs[1..], xs[|xs| - 1];
      JoinFront(init, sep);
      assert init[1..] == rest[..|rest| - 1];
      assert rest[|rest| - 1] == last;
      var a, b := Join(init[1..], sep), Join(rest, sep);
      assert b == a + sep + last;
      assert Join(xs, sep) == (xs[0] + sep + a) + sep + last;
      assert (xs[0] + sep + a) + sep + last == xs[0] + sep + (a + sep + last);
    }
  }

  /** Joining one more element adds the separator and the element. */
  lemma JoinStep(xs: seq<string>, k: nat, sep: string)
    requires k < |xs|
    ensures Join(xs[..k + 1], sep) == if k == 0 then xs[0] else Join(xs[..k], sep) + sep + xs[k]
  {
    assert xs[..k + 1][..k] == xs[..k];
  }

  /** What a builder holds after writing the first `k` elements of `xs`,
      each followed by `sep` except the last element of `xs`. */
  function JoinPrefix(xs: seq<string>, k: nat, sep: string): string
    requires k <= |xs|
  {
    if k == 0 then "" else if k == |xs| then Join(xs, sep) else Join(xs[..k], sep) + sep
  }

  predicate EndsWith(s: string, suffix: string) {
    |suffix| <= |s| && s[|s| - |suffix|..] == suffix
  }

  /** A join ends with its last element. */
  lemma JoinLast(xs: seq<string>, sep: string)
    requires |xs| > 0
    ensures EndsWith(Join(xs, sep), xs[|xs| - 1])
  {
    if |xs| > 1 {
      var a, x := Join(xs[..|xs| - 1], sep) + sep, xs[|xs| - 1];
      assert (a + x)[|a + x| - |x|..] == x;
    }
  }

  /** The word at the front of `w + t` is `w` when `w` is free of whitespace
      and `t` is empty or starts with whitespace. */
  lemma {:induction false} WordThen(w: string, t: string)
    requires w != [] && NoSpace(w)
    requires t == [] || IsSpace(t[0])
    ensures Word(w + t) == w
    decreases |w|
  {
    var s := w + t;
    if |w| > 1 {
      assert s[1] == w[1];
      assert s[1..] == w[1..] + t;
      WordThen(w[1..], t);
      assert w == [w[0]] + w[1..];
    }
  }

  /** A whitespace-free word followed by whitespace or by nothing is the
      first field. */
  lemma FieldsWordThen(w: string, t: string)
    requires w != [] && NoSpace(w)
    requires t == [] || IsSpace(t[0])
    ensures Fields(w + t) == [w] + Fields(t)
  {
    WordThen(w, t);
    assert (w + t)[|w|..] == t;
  }

  /** `strings.Fields` gives back the words that a single space joins, when
      each word is non-empty and free of whitespace. */
  lemma {:induction false} FieldsOfJoin(ws: seq<string>)
    requires forall i :: 0 <= i < |ws| ==> ws[i] != [] && NoSpace(ws[i])
    ensures Fields(Join(ws, " ")) == ws
    decreases |ws|
  {
    if |ws| == 1 {
      FieldsOfWord(ws[0]);
    } else if |ws| > 1 {
      JoinFront(ws, " ");
      var rest := Join(ws[1..], " ");
      assert Join(ws, " ") == ws[0] + (" " + rest);
      FieldsWordThen(ws[0], " " + rest);
      assert (" " + rest)[1..] == rest;
      FieldsOfJoin(ws[1..]);
      assert ws == [ws[0]] + ws[1..];
    }
  }

  /** The escaping done by `strconv.Quote` for quote and backslash. */
  function Escape(s: string): string {
    if s == [] then []
    else (if s[0] == '"' || s[0] == '\\' then ['\\', s[0]] else [s[0]]) + Escape(s[1..])
  }

  /** Undoes `Escape`: a backslash makes the next character literal. */
  function Unescape(e: string): string
    decreases |e|
  {
    if e == [] then []
    else if e[0] == '\\' && |e| >= 2 then [e[1]] + Unescape(e[2..])
    else [e[0]] + Unescape(e[1..])
  }

  /** Go's `%q` verb on a string: the escaped text between double quotes. */
  function GoQuote(s: string): (r: string)
    ensures |r| >= 2 && r[0] == '"' && r[|r| - 1] == '"'
  {
    "\"" + Escape(s) + "\""
  }

  /** Quoting is undone by dropping the quotes and unescaping. */
  lemma GoQuoteRoundTrip(s: string)
    ensures var r := GoQuote(s); Unescape(r[1..|r| - 1]) == s
  {
    var r := GoQuote(s);
    assert r[1..|r| - 1] == Escape(s);
    UnescapeEscape(s);
  }

  /** Quoting loses nothing: the escaped text unescapes to the original. */
  lemma {:induction false} UnescapeEscape(s: string)
    ensures Unescape(Escape(s)) == s
  {
    if s != [] {
      UnescapeEscape(s[1..]);
      var head := if s[0] == '"' || s[0] == '\\' then ['\\', s[0]] else [s[0]];
      assert Escape(s) == head + Escape(s[1..]);
      if s[0] == '"' || s[0] == '\\' {
        assert (head + Escape(s[1..]))[2..] == Escape(s[1..]);
      } else {
        assert (head + Escape(s[1..]))[1..] == Escape(s[1..]);
      }
    }
  }

  /** A string with no quote or backslash is quoted as itself between quotes. */
  lemma {:induction false} GoQuotePlain(s: string)
    requires forall i :: 0 <= i < |s| ==> s[i] != '"' && s[i] != '\\'
    ensures GoQuote(s) == "\"" + s + "\""
  {
    EscapePlain(s);
  }

  lemma {:induction false} EscapePlain(s: string)
    requires forall i :: 0 <= i < |s| ==> s[i] != '"' && s[i] != '\\'
    ensures Escape(s) == s
  {
    if s != [] {
      EscapePlain(s[1..]);
      assert s == [s[0]] + s[1..];
    }
  }
}
