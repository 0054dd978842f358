/** `args_parser_make_argv`: cutting a command string into arguments, with quotes and backslashes. */
module ArgvParser {
  import opened Bytes
  import opened DynArrays

  const QUOTE: byte := 0x22
  const BACKSLASH: byte := 0x5C
  const SPACE: byte := 0x20

  type Text = seq<byte>

  /** A C string: the source's texts end before their NUL. */
  predicate NulFree(t: Text) {
    forall k :: 0 <= k < |t| ==> t[k] != 0
  }

  predicate Blank(c: byte) {
    c <= SPACE
  }

  /** A backslash takes the special meaning from a quote or a backslash behind it, and from nothing else. */
  predicate Escapes(s: Text) {
    |s| >= 2 && s[0] == BACKSLASH && (s[1] == QUOTE || s[1] == BACKSLASH)
  }

  /** One argument from the front of `s`, inside quotes if `q`, and what is left behind it. */
  function Lex(s: Text, q: bool): (r: (Text, Text))
    ensures |r.1| <= |s| && (s != [] ==> |r.1| < |s|)
  {
    if s == [] then ([], [])
    else if Escapes(s) then
      var r := Lex(s[2..], q);
      ([s[1]] + r.0, r.1)
    else if s[0] == QUOTE then Lex(s[1..], !q)
    else if !q && Blank(s[0]) then ([], s[1..])
    else
      var r := Lex(s[1..], q);
      ([s[0]] + r.0, r.1)
  }

  /** All arguments of a command string. */
  function Argv(s: Text): seq<Text>
    decreases |s|
  {
    if s == [] then []
    else if Blank(s[0]) then Argv(s[1..])
    else [Lex(s, false).0] + Argv(Lex(s, false).1)
  }

  /** `args_parser_make_argv`: the arguments are added to those `argv` has already. */
  method MakeArgv(r: Text, argv: DynArray<Text>) returns (ret: nat)
    requires argv.Valid() && NulFree(r)
    modifies argv, argv.tab
    ensures argv.Valid() && argv.Elements() == old(argv.Elements()) + Argv(r) && ret == |Argv(r)|
  {
    ret := 0;
    ghost var was := argv.Elements();
    assert was + Argv(r) == argv.Elements() + Argv(r);
    var s := r;
    while true
      invariant (argv.tab == old(argv.tab) || fresh(argv.tab)) && argv.Valid() && ret + |was| == |argv.Elements()|
      invariant argv.Elements() + Argv(s) == was + Argv(r)
      decreases |s|
    {
      while s != [] && Blank(s[0])
        invariant (argv.tab == old(argv.tab) || fresh(argv.tab)) && argv.Valid() && ret + |was| == |argv.Elements()|
        invariant argv.Elements() + Argv(s) == was + Argv(r)
        decreases |s|
      {
        s := s[1..];
      }
      if s == [] {
        break;
      }
      var str, rest := OneArgument(s);
      ghost var before := argv.Elements();
      assert before + ([str] + Argv(rest)) == before + [str] + Argv(rest);
      argv.Add(str);
      ret := ret + 1;
      s := rest;
    }
    assert argv.Elements() + [] == argv.Elements();
  }

  /** One character, or escaped pair, of an argument. */
  lemma LexStep(s: Text, q: bool)
    requires s != []
    ensures Escapes(s) ==> Lex(s, q) == ([s[1]] + Lex(s[2..], q).0, Lex(s[2..], q).1)
    ensures !Escapes(s) && s[0] == QUOTE ==> Lex(s, q) == Lex(s[1..], !q)
    ensures !Escapes(s) && s[0] != QUOTE && !q && Blank(s[0]) ==> Lex(s, q) == ([], s[1..])
    ensures !Escapes(s) && s[0] != QUOTE && (q || !Blank(s[0])) ==>
      Lex(s, q) == ([s[0]] + Lex(s[1..], q).0, Lex(s[1..], q).1)
  {
  }

  lemma Append(str: Text, c: byte, tail: Text)
    ensures str + ([c] + tail) == str + [c] + tail && str + [] == str
  {
  }

  /** The inner loop: characters are collected until a blank outside quotes. */
  method OneArgument(s: Text) returns (str: Text, rest: Text)
    ensures (str, rest) == Lex(s, false)
  {
    hide Lex, Escapes, Blank;
    var q := false;
    str, rest := [], s;
    while rest != []
      invariant |rest| <= |s| && str + Lex(rest, q).0 == Lex(s, false).0 && Lex(rest, q).1 == Lex(s, false).1
      decreases |rest|
    {
      LexStep(rest, q);
      var c := rest[0];
      if Escapes(rest) {
        EscapePair(rest);
        c := rest[1];
        rest := rest[2..];
      } else {
        rest := rest[1..];
        if c == QUOTE {
          q := !q;
          continue;
        } else if !q && Blank(c) {
          Append(str, c, []);
          return;
        }
      }
      Append(str, c, Lex(rest, q).0);
      str := str + [c];
    }
    NothingLeft(q);
    Append(str, 0, []);
  }

  lemma EscapePair(s: Text)
    requires Escapes(s)
    ensures |s| >= 2
  {
  }

  lemma NothingLeft(q: bool)
    ensures Lex([], q) == ([], [])
  {
  }

  // ----- splitting undoes quoting -----

  /** Quotes and backslashes get a backslash in front. */
  function Escape(a: Text): Text {
    if a == [] then []
    else (if a[0] == QUOTE || a[0] == BACKSLASH then [BACKSLASH, a[0]] else [a[0]]) + Escape(a[1..])
  }

  function Quote(a: Text): Text {
    [QUOTE] + Escape(a) + [QUOTE]
  }

  /** The arguments, quoted, with one space between. */
  function Join(args: seq<Text>): Text {
    if args == [] then []
    else if |args| == 1 then Quote(args[0])
    else Quote(args[0]) + [SPACE] + Join(args[1..])
  }

  lemma LexPair(c: byte, t: Text, q: bool)
    requires c == QUOTE || c == BACKSLASH
    ensures Lex([BACKSLASH, c] + t, q) == ([c] + Lex(t, q).0, Lex(t, q).1)
  {
    assert ([BACKSLASH, c] + t)[2..] == t;
  }

  lemma LexPlain(c: byte, t: Text)
    requires c != QUOTE && c != BACKSLASH
    ensures Lex([c] + t, true) == ([c] + Lex(t, true).0, Lex(t, true).1)
  {
    assert ([c] + t)[1..] == t;
  }

  lemma LexToggle(t: Text, q: bool)
    ensures Lex([QUOTE] + t, q) == Lex(t, !q)
  {
    assert ([QUOTE] + t)[1..] == t;
  }

  lemma LexEnd(rest: Text)
    requires rest == [] || rest[0] == SPACE
    ensures Lex(rest, false) == ([], if rest == [] then [] else rest[1..])
  {
  }

  /** Inside quotes, the escaped text is read back character by character up to the closing quote. */
  lemma {:induction false} LexEscaped(a: Text, rest: Text)
    ensures Lex(Escape(a) + [QUOTE] + rest, true) == (a + Lex(rest, false).0, Lex(rest, false).1)
  {
    hide Lex;
    if a == [] {
      assert Escape(a) + [QUOTE] + rest == [QUOTE] + rest;
      LexToggle(rest, true);
      assert a + Lex(rest, false).0 == Lex(rest, false).0;
    } else {
      LexEscaped(a[1..], rest);
      var t := Escape(a[1..]) + [QUOTE] + rest;
      if a[0] == QUOTE || a[0] == BACKSLASH {
        assert Escape(a) + [QUOTE] + rest == [BACKSLASH, a[0]] + t;
        LexPair(a[0], t, true);
      } else {
        assert Escape(a) + [QUOTE] + rest == [a[0]] + t;
        LexPlain(a[0], t);
      }
      assert [a[0]] + (a[1..] + Lex(rest, false).0) == a + Lex(rest, false).0;
    }
  }

  lemma LexQuoted(a: Text, rest: Text)
    requires rest == [] || rest[0] == SPACE
    ensures Lex(Quote(a) + rest, false) == (a, if rest == [] then [] else rest[1..])
  {
    hide Lex, Escape;
    assert Quote(a) + rest == [QUOTE] + (Escape(a) + [QUOTE] + rest);
    LexToggle(Escape(a) + [QUOTE] + rest, false);
    LexEscaped(a, rest);
    LexEnd(rest);
    assert a + [] == a;
  }

  lemma {:induction false} EscapeNulFree(a: Text)
    requires NulFree(a)
    ensures NulFree(Escape(a))
  {
    if a != [] {
      EscapeNulFree(a[1..]);
    }
  }

  /**
    Any list of arguments without NUL, quoted, escaped and joined by spaces, is a C string and comes back unchanged.
   */
  lemma {:induction false} SplitJoin(args: seq<Text>)
    requires forall k :: 0 <= k < |args| ==> NulFree(args[k])
    ensures NulFree(Join(args)) && Argv(Join(args)) == args
  {
    if |args| > 0 {
      EscapeNulFree(args[0]);
    }
    if |args| == 1 {
      assert Quote(args[0]) + [] == Quote(args[0]);
      LexQuoted(args[0], []);
      assert args == [args[0]] + [];
    } else if |args| > 1 {
      var rest := [SPACE] + Join(args[1..]);
      assert Join(args) == Quote(args[0]) + rest;
      LexQuoted(args[0], rest);
      assert rest[1..] == Join(args[1..]);
      SplitJoin(args[1..]);
    }
  }

  // ----- every way to write a list of arguments -----

  /**
    One step of the text of an argument: a byte for itself, a byte behind a backslash, or a quote that opens or closes.
   */
  datatype Token = Plain(c: byte) | Escaped(c: byte) | Toggle

  function Spelled(t: Token): Text {
    match t
    case Plain(c) => [c]
    case Escaped(c) => [92, c]
    case Toggle => [34]
  }

  function Written(ts: seq<Token>): Text {
    if ts == [] then [] else Spelled(ts[0]) + Written(ts[1..])
  }

  /** The argument the tokens stand for. */
  function Value(ts: seq<Token>): Text {
    if ts == [] then [] else (if ts[0].Toggle? then [] else [ts[0].c]) + Value(ts[1..])
  }

  /** The quote is closed at the end. */
  predicate Closes(ts: seq<Token>, q: bool) {
    if ts == [] then !q else Closes(ts[1..], if ts[0].Toggle? then !q else q)
  }

  /**
    In front of the text `w`: only quotes and backslashes are escaped, a byte for itself is no quote and, outside
    quotes, no blank, and a backslash for itself is not followed by a quote or a backslash.
   */
  predicate FirstReadable(t: Token, w: Text, q: bool) {
    match t
    case Plain(c) => c != 34 && (q || c > 32) && (c == 92 ==> w == [] || (w[0] != 34 && w[0] != 92))
    case Escaped(c) => c == 34 || c == 92
    case Toggle => true
  }

  /** Every token is readable where it stands. */
  predicate Readable(ts: seq<Token>, q: bool) {
    ts == [] || (FirstReadable(ts[0], Written(ts[1..]), q) && Readable(ts[1..], if ts[0].Toggle? then !q else q))
  }

  predicate AllBlank(t: Text) {
    forall k :: 0 <= k < |t| ==> 0 < t[k] <= 32
  }

  lemma LexOne(c: byte, t: Text, q: bool)
    requires c != 34 && (q || c > 32) && (c == 92 ==> t == [] || (t[0] != 34 && t[0] != 92))
    ensures Lex([c] + t, q) == ([c] + Lex(t, q).0, Lex(t, q).1)
  {
    assert ([c] + t)[1..] == t;
  }

  /** Whatever way an argument is written, the inner loop reads it back, up to the end or one blank further. */
  lemma {:induction false} LexWritten(ts: seq<Token>, q: bool, rest: Text)
    requires Readable(ts, q) && AllBlank(rest[..if rest == [] then 0 else 1]) && (Closes(ts, q) || rest == [])
    ensures Lex(Written(ts) + rest, q) == (Value(ts), if rest == [] then [] else rest[1..])
  {
    hide Lex, Written;
    if ts == [] {
      assert Written([]) + rest == rest by {
        WrittenNone();
      }
      LexAtEnd(rest, q);
    } else {
      LexWritten(ts[1..], if ts[0].Toggle? then !q else q, rest);
      LexToken(ts, q, rest);
    }
  }

  lemma FirstToken(ts: seq<Token>, q: bool)
    requires ts != [] && Readable(ts, q)
    ensures FirstReadable(ts[0], Written(ts[1..]), q) && Written(ts) == Spelled(ts[0]) + Written(ts[1..])
  {
  }

  lemma LexSpelled(t: Token, w: Text, q: bool, rest: Text)
    requires FirstReadable(t, w, q) && AllBlank(rest[..if rest == [] then 0 else 1])
    ensures var r := Lex(w + rest, if t.Toggle? then !q else q);
      Lex(Spelled(t) + (w + rest), q) == ((if t.Toggle? then [] else [t.c]) + r.0, r.1)
  {
    hide Lex, AllBlank;
    match t
    case Plain(c) =>
      FirstOf(w, rest, c);
      LexOne(c, w + rest, q);
    case Escaped(c) =>
      LexPair(c, w + rest, q);
    case Toggle =>
      LexToggle(w + rest, q);
      assert [] + Lex(w + rest, !q).0 == Lex(w + rest, !q).0;
  }

  /** The first token is read as what it stands for. */
  lemma LexToken(ts: seq<Token>, q: bool, rest: Text)
    requires ts != [] && Readable(ts, q) && AllBlank(rest[..if rest == [] then 0 else 1])
    ensures var t := Lex(Written(ts[1..]) + rest, if ts[0].Toggle? then !q else q);
      Lex(Written(ts) + rest, q) == ((if ts[0].Toggle? then [] else [ts[0].c]) + t.0, t.1)
  {
    hide Lex, Readable, Written, FirstReadable, Spelled, AllBlank;
    FirstToken(ts, q);
    LexSpelled(ts[0], Written(ts[1..]), q, rest);
    assert Spelled(ts[0]) + Written(ts[1..]) + rest == Spelled(ts[0]) + (Written(ts[1..]) + rest);
  }

  /** Behind a backslash for itself no quote or backslash comes, whether the argument ends there or not. */
  lemma FirstOf(w: Text, rest: Text, c: byte)
    requires AllBlank(rest[..if rest == [] then 0 else 1]) && (c == 92 ==> w == [] || (w[0] != 34 && w[0] != 92))
    ensures c == 92 ==> w + rest == [] || ((w + rest)[0] != 34 && (w + rest)[0] != 92)
  {
    if w == [] && rest != [] {
      assert rest[..1][0] == rest[0];
    }
  }

  lemma WrittenNone()
    ensures Written([]) == []
  {
  }

  lemma LexAtEnd(rest: Text, q: bool)
    requires AllBlank(rest[..if rest == [] then 0 else 1]) && (!q || rest == [])
    ensures Lex(rest, q) == ([], if rest == [] then [] else rest[1..])
  {
    if rest != [] {
      assert rest[..1][0] == rest[0];
    }
  }

  /** An argument and the blanks in front of it. */
  datatype Word = Word(gap: Text, tokens: seq<Token>)

  function Line(ws: seq<Word>, tail: Text): Text {
    if ws == [] then tail else ws[0].gap + (Written(ws[0].tokens) + Line(ws[1..], tail))
  }

  function Values(ws: seq<Word>): seq<Text> {
    if ws == [] then [] else [Value(ws[0].tokens)] + Values(ws[1..])
  }

  /** Blanks between all words; only the very last one may leave its quote open, when nothing comes behind it. */
  predicate Separated(ws: seq<Word>, tail: Text) {
    if ws == [] then AllBlank(tail)
    else
      && AllBlank(ws[0].gap) && ws[0].tokens != [] && Readable(ws[0].tokens, false)
      && (Closes(ws[0].tokens, false) || (|ws| == 1 && tail == []))
      && (|ws| > 1 ==> ws[1].gap != [])
      && Separated(ws[1..], tail)
  }

  lemma {:induction false} SkipsBlanks(g: Text, t: Text)
    requires AllBlank(g)
    ensures Argv(g + t) == Argv(t)
  {
    if g == [] {
      assert g + t == t;
    } else {
      SkipsBlanks(g[1..], t);
      assert (g + t)[1..] == g[1..] + t;
    }
  }

  lemma FirstByte(ts: seq<Token>)
    requires ts != [] && Readable(ts, false)
    ensures Written(ts) != [] && !Blank(Written(ts)[0])
  {
  }

  /** Behind a word comes the end or a blank. */
  lemma BlankBehind(ws: seq<Word>, tail: Text)
    requires ws != [] && Separated(ws, tail)
    ensures var rest := Line(ws[1..], tail);
      AllBlank(rest[..if rest == [] then 0 else 1]) && (|ws| == 1 ==> rest == tail)
  {
    var rest := Line(ws[1..], tail);
    if |ws| > 1 {
      assert rest[0] == ws[1].gap[0];
    }
  }

  /**
    Any list of arguments, written in any of these ways, with any blanks in front, between and behind, comes back: the
    command string may use tabs and line ends, quotes around a part of a word,
      and backslashes that stand for themselves.
   */
  lemma {:induction false} SplitLine(ws: seq<Word>, tail: Text)
    requires Separated(ws, tail)
    ensures Argv(Line(ws, tail)) == Values(ws)
  {
    hide Lex, Readable, Blank, Closes;
    if ws == [] {
      SkipsBlanks(tail, []);
      assert tail + [] == tail;
    } else {
      var ts, rest := ws[0].tokens, Line(ws[1..], tail);
      SkipsBlanks(ws[0].gap, Written(ts) + rest);
      FirstByte(ts);
      BlankBehind(ws, tail);
      LexWritten(ts, false, rest);
      SplitLine(ws[1..], tail);
      if rest != [] {
        SkipsBlanks(rest[..1], rest[1..]);
        assert rest[..1] + rest[1..] == rest;
      }
    }
  }
}
