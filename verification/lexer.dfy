/** The query lexer of engine/parser.go: a cursor over the runes of the
    query that splits it into tokens and records errors as it goes.

    The functions `SkipSpaceEnd`, `ReadStringLoop` and `NextTokenLoop`
    describe, on positions, what the loops of the `Parser` methods compute;
    the methods are proved against them and the lemmas at the end of the
    module state what the functions do to the query text. */
module Lexer {
  import opened Text

  /** The errors a query can be rejected with.  The lexer records the first
      two; `Empty` is raised when no token was produced. */
  datatype QueryError = IllegalChar | Unterminated | Empty

  /** What one scanning step leaves behind: the text it read, the position
      of the cursor afterwards and the error list afterwards. */
  datatype Scan = Scan(tok: string, pos: nat, errs: seq<QueryError>)

  /** The rune under the cursor at position `i`: NUL once past the end. */
  function At(t: string, i: nat): char {
    if i < |t| then t[i] else '\0'
  }

  /** A rune that an unquoted token takes as it is. */
  predicate Plain(c: char) {
    c != '\0' && c != '"' && c != '<' && c != '>' && !IsSpace(c)
  }

  /** A rune that a quoted span takes as it is. */
  predicate Quotable(c: char) {
    c != '\0' && c != '"' && c != '<' && c != '>'
  }

  /** Where `skipSpace` stops when started at `j`: the first position from
      `j` on whose rune is not whitespace.  Only whitespace is passed over. */
  function SkipSpaceEnd(t: string, j: nat): (r: nat)
    requires j <= |t| + 1
    ensures j <= r <= |t| + 1 && (j <= |t| ==> r <= |t|)
    ensures !IsSpace(At(t, r))
    ensures forall k :: j <= k < r ==> k < |t| && IsSpace(t[k])
    decreases |t| + 1 - j
  {
    if IsSpace(At(t, j)) then SkipSpaceEnd(t, j + 1) else j
  }

  /** The loop of `readString`, from position `j` with `buff` read so far
      and `errs` recorded so far. */
  function ReadStringLoop(t: string, j: nat, buff: string, errs: seq<QueryError>): (r: Scan)
    requires j <= |t|
    ensures j <= r.pos <= |t|
    ensures errs <= r.errs && |r.errs| <= |errs| + 1
    decreases |t| - j
  {
    var c := At(t, j);
    if c == '"' then Scan(buff, j + 1, errs)
    else if c == '\0' then Scan(buff, j, errs + [Unterminated])
    else if c == '<' || c == '>' then Scan("", j, errs + [IllegalChar])
    else ReadStringLoop(t, j + 1, buff + [c], errs)
  }

  /** `readString` called with the cursor at `j`: nothing happens unless the
      cursor is on a quote; otherwise the quote is passed and the loop runs. */
  function ReadStringAt(t: string, j: nat, errs: seq<QueryError>): (r: Scan)
    requires j <= |t| + 1
    ensures At(t, j) == '"' ==> j < r.pos <= |t|
    ensures errs <= r.errs
  {
    if At(t, j) != '"' then Scan("", j, errs)
    else ReadStringLoop(t, j + 1, "", errs)
  }

  /** The loop of `nextToken`, from position `j` with `buff` built so far
      and `errs` recorded so far.  Errors are only ever appended, and a
      token that is not empty was read from at least one rune. */
  function NextTokenLoop(t: string, j: nat, buff: string, errs: seq<QueryError>): (r: Scan)
    requires j <= |t| + 1
    ensures j <= r.pos <= |t| + 1
    ensures errs <= r.errs
    ensures buff == "" && r.tok != "" ==> j < r.pos
    decreases |t| + 1 - j
  {
    var c := At(t, j);
    if c == '<' || c == '>' then Scan("", j, errs + [IllegalChar])
    else if c == '"' then
      var s := ReadStringAt(t, j, errs);
      NextTokenLoop(t, s.pos + 1, buff + s.tok, s.errs)
    else if c == '\0' then Scan(buff, j, errs)
    else if IsSpace(c) then Scan(buff, SkipSpaceEnd(t, j), errs)
    else NextTokenLoop(t, j + 1, buff + [c], errs)
  }

  /** The lexer state of engine/parser.go.  Once the first rune has been
      read, `readpos` is one past `pos` and `ch` is the rune at `pos`. */
  class Parser {
    const text: string
    var ch: char
    var pos: nat
    var readpos: nat
    var errors: seq<QueryError>

    ghost predicate Valid()
      reads this
    {
      readpos == pos + 1 && pos <= |text| + 1 && ch == At(text, pos)
    }

    /** A parser over `s` that has not read anything yet. */
    constructor (s: string)
      ensures text == s && ch == '\0' && pos == 0 && readpos == 0 && errors == []
    {
      text := s;
      ch := '\0';
      pos, readpos := 0, 0;
      errors := [];
    }

    /** Advances the cursor by one rune; past the end the rune is NUL. */
    method Read()
      requires readpos <= |text| + 1
      modifies this
      ensures pos == old(readpos) && readpos == old(readpos) + 1
      ensures ch == At(text, old(readpos))
      ensures errors == old(errors)
      ensures Valid()
    {
      if readpos >= |text| {
        ch := '\0';
      } else {
        ch := text[readpos];
      }
      pos := readpos;
      readpos := readpos + 1;
    }

    /** Passes over whitespace: afterwards the cursor is not on whitespace
      and every rune passed over was whitespace. */
    method SkipSpace()
      requires Valid()
      modifies this
      ensures Valid() && errors == old(errors)
      ensures pos == SkipSpaceEnd(text, old(pos))
      ensures !IsSpace(ch)
      ensures forall k :: old(pos) <= k < pos ==> k < |text| && IsSpace(text[k])
    {
      while IsSpace(ch)
        invariant Valid() && errors == old(errors)
        invariant old(pos) <= pos
        invariant SkipSpaceEnd(text, pos) == SkipSpaceEnd(text, old(pos))
        decreases |text| + 1 - pos
      {
        Read();
      }
    }

    /** Records an error after those already recorded. */
    method Error(e: QueryError)
      modifies this
      ensures errors == old(errors) + [e]
      ensures ch == old(ch) && pos == old(pos) && readpos == old(readpos)
    {
      errors := errors + [e];
    }

    /** Reads a quoted span whose opening quote is under the cursor and
      returns its content. */
    method ReadString() returns (s: string)
      requires Valid()
      modifies this
      ensures Valid()
      ensures var r := ReadStringAt(text, old(pos), old(errors));
        s == r.tok && pos == r.pos && errors == r.errs
    {
      if ch != '"' {
        return "";
      }
      Read();
      var buff := "";
      while true
        invariant Valid() && old(pos) < pos <= |text|
        invariant ReadStringLoop(text, pos, buff, errors) == ReadStringAt(text, old(pos), old(errors))
        decreases |text| - pos
      {
        if ch == '"' {
          Read();
          break;
        }
        if ch == '\0' {
          Error(Unterminated);
          break;
        }
        if ch == '<' || ch == '>' {
          Error(IllegalChar);
          return "";
        }
        buff := buff + [ch];
        Read();
      }
      s := buff;
    }

    /** Reads the next token. */
    method NextToken() returns (tok: string)
      requires Valid()
      modifies this
      ensures Valid()
      ensures var r := NextTokenLoop(text, old(pos), "", old(errors));
        tok == r.tok && pos == r.pos && errors == r.errs
    {
      var buff := "";
      while true
        invariant Valid()
        invariant NextTokenLoop(text, pos, buff, errors) == NextTokenLoop(text, old(pos), "", old(errors))
        decreases |text| + 1 - pos
      {
        if ch == '<' || ch == '>' {
          Error(IllegalChar);
          return "";
        } else if ch == '"' {
          var s := ReadString();
          buff := buff + s;
        } else if ch == '\0' {
          break;
        } else if IsSpace(ch) {
          SkipSpace();
          break;
        } else {
          buff := buff + [ch];
        }
        Read();
      }
      tok := buff;
    }
  }

  /** An unquoted run of plain runes is appended to the token as it is. */
  lemma {:induction false} UnquotedRun(t: string, j: nat, k: nat, buff: string, errs: seq<QueryError>)
    requires j <= k <= |t|
    requires forall i :: j <= i < k ==> Plain(t[i])
    ensures NextTokenLoop(t, j, buff, errs) == NextTokenLoop(t, k, buff + t[j..k], errs)
    decreases k - j
  {
    if j == k {
      assert buff + t[j..k] == buff;
    } else {
      UnquotedRun(t, j + 1, k, buff + [t[j]], errs);
      assert buff + [t[j]] + t[j + 1..k] == buff + t[j..k];
    }
  }

  /** An unquoted token is the maximal run of plain runes; when it ends at
      whitespace the whole whitespace run after it is passed over too, and
      at the end of the input the cursor stays on the NUL. */
  lemma UnquotedToken(t: string, j: nat, k: nat, buff: string, errs: seq<QueryError>)
    requires j <= k <= |t|
    requires forall i :: j <= i < k ==> Plain(t[i])
    requires At(t, k) == '\0' || IsSpace(At(t, k))
    ensures NextTokenLoop(t, j, buff, errs) == Scan(buff + t[j..k], SkipSpaceEnd(t, k), errs)
  {
    UnquotedRun(t, j, k, buff, errs);
  }

  /** Inside quotes every rune up to the closing quote is taken verbatim,
      whitespace included, and the cursor ends just past the closing quote. */
  lemma {:induction false} QuotedRun(t: string, j: nat, k: nat, buff: string, errs: seq<QueryError>)
    requires j <= k < |t| && t[k] == '"'
    requires forall i :: j <= i < k ==> Quotable(t[i])
    ensures ReadStringLoop(t, j, buff, errs) == Scan(buff + t[j..k], k + 1, errs)
    decreases k - j
  {
    if j == k {
      assert buff + t[j..k] == buff;
    } else {
      QuotedRun(t, j + 1, k, buff + [t[j]], errs);
      assert buff + [t[j]] + t[j + 1..k] == buff + t[j..k];
    }
  }

  /** A quoted span from `j` to the closing quote at `k` adds its inner runes
      to the token, quotes removed; scanning resumes at `k + 2`, so the rune
      right after the closing quote is dropped without being looked at. */
  lemma QuotedSpan(t: string, j: nat, k: nat, buff: string, errs: seq<QueryError>)
    requires j < k < |t| && t[j] == '"' && t[k] == '"'
    requires forall i :: j < i < k ==> Quotable(t[i])
    ensures NextTokenLoop(t, j, buff, errs) == NextTokenLoop(t, k + 2, buff + t[j + 1..k], errs)
  {
    QuotedRun(t, j + 1, k, "", errs);
    assert "" + t[j + 1..k] == t[j + 1..k];
  }

  /** A quote that is never closed takes the rest of the input and records
      `Unterminated`. */
  lemma {:induction false} UnterminatedRun(t: string, j: nat, buff: string, errs: seq<QueryError>)
    requires j <= |t|
    requires forall i :: j <= i < |t| ==> Quotable(t[i])
    ensures ReadStringLoop(t, j, buff, errs) == Scan(buff + t[j..], |t|, errs + [Unterminated])
    decreases |t| - j
  {
    if j == |t| {
      assert buff + t[j..] == buff;
    } else {
      UnterminatedRun(t, j + 1, buff + [t[j]], errs);
      assert buff + [t[j]] + t[j + 1..] == buff + t[j..];
    }
  }

  /** An unterminated quoted span ends the token with the partial content
      and one `Unterminated` error. */
  lemma UnterminatedQuote(t: string, j: nat, buff: string, errs: seq<QueryError>)
    requires j < |t| && t[j] == '"'
    requires forall i :: j < i < |t| ==> Quotable(t[i])
    ensures NextTokenLoop(t, j, buff, errs) == Scan(buff + t[j + 1..], |t| + 1, errs + [Unterminated])
  {
    UnterminatedRun(t, j + 1, "", errs);
    assert "" + t[j + 1..] == t[j + 1..];
  }

  /** A `<` or `>` inside quotes records `IllegalChar` and throws away what
      the quoted span had read, but `nextToken` steps over the offending rune
      and goes on scanning with the token built before the quote. */
  lemma {:induction false} IllegalInQuote(t: string, j: nat, k: nat, buff: string, errs: seq<QueryError>)
    requires j < k < |t| && t[j] == '"' && (t[k] == '<' || t[k] == '>')
    requires forall i :: j < i < k ==> Quotable(t[i])
    ensures NextTokenLoop(t, j, buff, errs) == NextTokenLoop(t, k + 1, buff, errs + [IllegalChar])
  {
    IllegalRun(t, j + 1, k, "", errs);
    assert buff + "" == buff;
  }

  lemma {:induction false} IllegalRun(t: string, j: nat, k: nat, sbuff: string, errs: seq<QueryError>)
    requires j <= k < |t| && (t[k] == '<' || t[k] == '>')
    requires forall i :: j <= i < k ==> Quotable(t[i])
    ensures ReadStringLoop(t, j, sbuff, errs) == Scan("", k, errs + [IllegalChar])
    decreases k - j
  {
    if j < k {
      IllegalRun(t, j + 1, k, sbuff + [t[j]], errs);
    }
  }

  /** An unquoted `<` or `>` records `IllegalChar` and ends the token as the
      empty string without moving the cursor. */
  lemma IllegalCharStops(t: string, j: nat, buff: string, errs: seq<QueryError>)
    requires j <= |t| + 1 && (At(t, j) == '<' || At(t, j) == '>')
    ensures NextTokenLoop(t, j, buff, errs) == Scan("", j, errs + [IllegalChar])
  {
  }
}
