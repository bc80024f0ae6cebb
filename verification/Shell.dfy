/** The shell's parser (sh.c:266-494): a cursor over the line, recursive descent,
    and the termination of words by NULs written into the line itself. */
module Shell {
  import opened ShellGrammar

  predicate IsSpace(c: char) {
    c in {' ', '\t', '\r', '\n', '\U{0B}'}
  }

  predicate IsSymbol(c: char) {
    c in {'<', '|', '>', '&', ';', '(', ')'}
  }

  predicate InWord(c: char) {
    !IsSpace(c) && !IsSymbol(c)
  }

  /** A C string: no NUL before the end. */
  predicate CString(buf: string) {
    forall k :: 0 <= k < |buf| ==> buf[k] != '\0'
  }

  /* The tokens of a line. */

  function Skip(buf: string, s: nat): (e: nat)
    requires s <= |buf|
    ensures s <= e <= |buf| && (e < |buf| ==> !IsSpace(buf[e])) && forall k :: s <= k < e ==> IsSpace(buf[k])
    decreases |buf| - s
  {
    if s < |buf| && IsSpace(buf[s]) then Skip(buf, s + 1) else s
  }

  function WordEnd(buf: string, s: nat): (e: nat)
    requires s <= |buf|
    ensures s <= e <= |buf| && (e < |buf| ==> !InWord(buf[e])) && forall k :: s <= k < e ==> InWord(buf[k])
    decreases |buf| - s
  {
    if s < |buf| && InWord(buf[s]) then WordEnd(buf, s + 1) else s
  }

  /** The token that starts at a place, and where it ends. */
  function TokenAt(buf: string, a: nat): Token
    requires a < |buf| && !IsSpace(buf[a])
  {
    if buf[a] == '>' && a + 1 < |buf| && buf[a + 1] == '>' then Append
    else if IsSymbol(buf[a]) then Sym(buf[a])
    else Word(buf[a..WordEnd(buf, a)])
  }

  function EndOf(buf: string, a: nat): (e: nat)
    requires a < |buf| && !IsSpace(buf[a])
    ensures a < e <= |buf|
  {
    if buf[a] == '>' && a + 1 < |buf| && buf[a + 1] == '>' then a + 2
    else if IsSymbol(buf[a]) then a + 1
    else WordEnd(buf, a)
  }

  /** The tokens from a place on. */
  function Lex(buf: string, s: nat): Tokens
    requires s <= |buf|
    decreases |buf| - s
  {
    var a := Skip(buf, s);
    if a == |buf| then Nil else Cons(TokenAt(buf, a), Lex(buf, EndOf(buf, a)))
  }

  lemma {:induction false} SkipIs(buf: string, s: nat, e: nat)
    requires s <= e <= |buf| && (e < |buf| ==> !IsSpace(buf[e])) && forall k :: s <= k < e ==> IsSpace(buf[k])
    ensures Skip(buf, s) == e
    decreases e - s
  {
    if s < e {
      SkipIs(buf, s + 1, e);
    }
  }

  lemma {:induction false} WordEndIs(buf: string, s: nat, e: nat)
    requires s <= e <= |buf| && (e < |buf| ==> !InWord(buf[e])) && forall k :: s <= k < e ==> InWord(buf[k])
    ensures WordEnd(buf, s) == e
    decreases e - s
  {
    if s < e {
      WordEndIs(buf, s + 1, e);
    }
  }

  /** Whitespace in front makes no difference. */
  lemma LexSkip(buf: string, s: nat, e: nat)
    requires s <= e <= |buf| && forall k :: s <= k < e ==> IsSpace(buf[k])
    ensures Lex(buf, s) == Lex(buf, e)
  {
    SkipIs(buf, s, Skip(buf, e));
  }

  /* Writing tokens as text. */

  predicate Writable(t: Token) {
    match t
    case Sym(c) => c in {'<', '|', '>', '&', ';', '(', ')'}
    case Append => true
    case Word(w) =>
      |w| > 0 &&
      forall k :: 0 <= k < |w| ==>
        w[k] !in {'<', '|', '>', '&', ';', '(', ')', ' ', '\t', '\r', '\n', '\U{0B}', '\0'}
  }

  function TokenText(t: Token): string {
    match t
    case Sym(c) => [c]
    case Append => ">>"
    case Word(w) => w
  }

  predicate AllWritable(t: Tokens) {
    t.Cons? ==> Writable(t.head) && AllWritable(t.tail)
  }

  function Text(t: Tokens): string {
    if t.Nil? then "" else TokenText(t.head) + " " + Text(t.tail)
  }

  /** b is what c has from place n on. */
  predicate Suffix(c: string, n: nat, b: string) {
    |c| == n + |b| && forall j :: n <= j < |c| ==> c[j] == b[j - n]
  }

  lemma SkipShift(c: string, n: nat, b: string, s: nat)
    requires Suffix(c, n, b) && s <= |b|
    ensures Skip(c, n + s) == n + Skip(b, s)
  {
    SkipIs(c, n + s, n + Skip(b, s));
  }

  lemma WordShift(c: string, n: nat, b: string, s: nat)
    requires Suffix(c, n, b) && s <= |b|
    ensures WordEnd(c, n + s) == n + WordEnd(b, s) && c[n + s..n + WordEnd(b, s)] == b[s..WordEnd(b, s)]
  {
    WordEndIs(c, n + s, n + WordEnd(b, s));
  }

  lemma TokenShift(c: string, n: nat, b: string, a: nat)
    requires Suffix(c, n, b) && a < |b| && !IsSpace(b[a])
    ensures c[n + a] == b[a] && TokenAt(c, n + a) == TokenAt(b, a) && EndOf(c, n + a) == n + EndOf(b, a)
  {
    if !IsSymbol(b[a]) {
      WordShift(c, n, b, a);
    }
  }

  lemma {:induction false} LexShift(c: string, n: nat, b: string, s: nat)
    requires Suffix(c, n, b) && s <= |b|
    ensures Lex(c, n + s) == Lex(b, s)
    decreases |b| - s
  {
    var e := Skip(b, s);
    SkipShift(c, n, b, s);
    if e < |b| {
      TokenShift(c, n, b, e);
      LexShift(c, n, b, EndOf(b, e));
    }
  }

  /** A token ends in front of this character. */
  predicate Ends(t: Token, c: char) {
    match t
    case Word(_) => !InWord(c)
    case Sym(x) => !(x == '>' && c == '>')
    case Append => true
  }

  lemma FirstToken(t: Token, c: string)
    requires Writable(t) && TokenText(t) <= c && (|c| > |TokenText(t)| ==> Ends(t, c[|TokenText(t)|]))
    ensures !IsSpace(c[0]) && TokenAt(c, 0) == t && EndOf(c, 0) == |TokenText(t)|
  {
    var w := TokenText(t);
    assert c[0] == w[0];
    match t
    case Sym(_) =>
    case Append => assert c[1] == w[1];
    case Word(_) =>
      WordEndIs(c, 0, |w|);
      assert c[0..|w|] == w;
  }

  predicate Blank(gap: string) {
    forall k :: 0 <= k < |gap| ==> gap[k] in {' ', '\t', '\r', '\n', '\U{0B}'}
  }

  lemma LexGap(gap: string, b: string)
    requires Blank(gap)
    ensures Lex(gap + b, 0) == Lex(b, 0)
  {
    var c := gap + b;
    assert Suffix(c, |gap|, b);
    assert forall k :: 0 <= k < |gap| ==> c[k] == gap[k];
    LexSkip(c, 0, |gap|);
    LexShift(c, |gap|, b, 0);
  }

  /** White space, a token and the rest. */
  lemma LexFirst(gap: string, t: Token, rest: string)
    requires Blank(gap) && Writable(t) && (|rest| > 0 ==> Ends(t, rest[0]))
    ensures Lex(gap + TokenText(t) + rest, 0) == Cons(t, Lex(rest, 0))
  {
    var b := TokenText(t) + rest;
    assert gap + TokenText(t) + rest == gap + b;
    LexGap(gap, b);
    FirstToken(t, b);
    SkipIs(b, 0, 0);
    assert Suffix(b, |TokenText(t)|, rest);
    LexShift(b, |TokenText(t)|, rest, 0);
  }

  function Count(t: Tokens): nat {
    if t.Nil? then 0 else 1 + Count(t.tail)
  }

  /** Tokens with a gap before each and one at the end. */
  function Spread(t: Tokens, gaps: seq<string>): string
    requires |gaps| == Count(t) + 1
  {
    if t.Nil? then gaps[0] else gaps[0] + TokenText(t.head) + Spread(t.tail, gaps[1..])
  }

  /** Two tokens that need white space between them: words, and a ">" before
      another. */
  predicate Cling(t: Token, u: Token) {
    (t.Word? && u.Word?) || (t == Sym('>') && (u == Sym('>') || u == Append))
  }

  predicate Separate(t: Tokens, gaps: seq<string>)
    requires |gaps| == Count(t) + 1
  {
    && Blank(gaps[0])
    && (t.Cons? ==>
          && Separate(t.tail, gaps[1..])
          && (t.tail.Cons? && Cling(t.head, t.tail.head) ==> gaps[1] != ""))
  }

  /** Tokens are read back from any text that has white space where it is needed,
      and as much more as it likes. */
  lemma {:induction false} LexSpread(t: Tokens, gaps: seq<string>)
    requires AllWritable(t) && |gaps| == Count(t) + 1 && Separate(t, gaps)
    ensures Lex(Spread(t, gaps), 0) == t
  {
    if t.Nil? {
      LexSkip(gaps[0], 0, |gaps[0]|);
    } else {
      var rest := Spread(t.tail, gaps[1..]);
      LexSpread(t.tail, gaps[1..]);
      if gaps[1] != "" {
        assert rest[0] == gaps[1][0];
      } else if t.tail.Cons? {
        assert rest[0] == TokenText(t.tail.head)[0];
      }
      LexFirst(gaps[0], t.head, rest);
    }
  }

  lemma LexSpaced(t: Token, rest: string)
    requires Writable(t)
    ensures Lex(TokenText(t) + " " + rest, 0) == Cons(t, Lex(rest, 0))
  {
    var b := " " + rest;
    LexFirst("", t, b);
    LexGap(" ", rest);
    assert "" + TokenText(t) + b == TokenText(t) + " " + rest;
  }

  /** So they are with one space behind each. */
  lemma {:induction false} LexText(t: Tokens)
    requires AllWritable(t)
    ensures Lex(Text(t), 0) == t
  {
    if t.Cons? {
      LexText(t.tail);
      LexSpaced(t.head, Text(t.tail));
    }
  }

  /* Trees that point into the line. */

  /** A word of the line: q and eq of sh.c. */
  datatype Span = Span(q: nat, eq: nat)

  /** A whole word: it ends at the end of the line or in front of a separator. */
  predicate IsSpan(buf: string, w: Span) {
    && w.q < w.eq <= |buf| && (w.eq < |buf| ==> !InWord(buf[w.eq]))
    && forall k :: w.q <= k < w.eq ==> InWord(buf[k])
  }

  predicate AllSpans(buf: string, c: Cmd<Span>) {
    match c
    case Exec(args) => forall i :: 0 <= i < |args| ==> IsSpan(buf, args[i])
    case Redir(d, f, _) => AllSpans(buf, d) && IsSpan(buf, f)
    case Pipe(l, r) => AllSpans(buf, l) && AllSpans(buf, r)
    case List(l, r) => AllSpans(buf, l) && AllSpans(buf, r)
    case Back(d) => AllSpans(buf, d)
  }

  function WordText(buf: string, w: Span): string
    requires IsSpan(buf, w)
  {
    buf[w.q..w.eq]
  }

  function ArgText(buf: string, args: seq<Span>): seq<string>
    requires forall i :: 0 <= i < |args| ==> IsSpan(buf, args[i])
  {
    seq(|args|, i requires 0 <= i < |args| => WordText(buf, args[i]))
  }

  /** The command a tree stands for. */
  function Meaning(buf: string, c: Cmd<Span>): Cmd<string>
    requires AllSpans(buf, c)
  {
    match c
    case Exec(args) => Exec(ArgText(buf, args))
    case Redir(d, f, o) => Redir(Meaning(buf, d), WordText(buf, f), o)
    case Pipe(l, r) => Pipe(Meaning(buf, l), Meaning(buf, r))
    case List(l, r) => List(Meaning(buf, l), Meaning(buf, r))
    case Back(d) => Back(Meaning(buf, d))
  }

  lemma {:induction false} FillMeaning(buf: string, c: Cmd<Span>, args: seq<Span>)
    requires AllSpans(buf, c) && forall i :: 0 <= i < |args| ==> IsSpan(buf, args[i])
    ensures AllSpans(buf, Fill(c, args)) && Meaning(buf, Fill(c, args)) == Fill(Meaning(buf, c), ArgText(buf, args))
  {
    match c
    case Redir(d, _, _) => FillMeaning(buf, d, args);
    case _ =>
  }

  /** The character gettoken returns for a token. */
  function Code(t: Tokens): char {
    if t.Nil? then '\0'
    else match t.head
      case Sym(c) => c
      case Append => '+'
      case Word(_) => 'a'
  }

  class Parser {
    const buf: string
    var ps: nat

    ghost predicate Valid()
      reads this
    {
      ps <= |buf| && CString(buf)
    }

    /** The tokens still to come. */
    ghost function Ahead(): Tokens
      requires Valid()
      reads this
    {
      Lex(buf, ps)
    }

    constructor (buf: string)
      requires CString(buf)
      ensures Valid() && this.buf == buf && ps == 0
    {
      this.buf, ps := buf, 0;
    }

    method SkipSpace(s: nat) returns (e: nat)
      requires s <= |buf|
      ensures e == Skip(buf, s)
    {
      e := s;
      while e < |buf| && IsSpace(buf[e])
        invariant s <= e <= |buf| && Skip(buf, s) == Skip(buf, e)
      {
        e := e + 1;
      }
    }

    /** gettoken (sh.c:266-309). */
    method Gettoken() returns (tok: char, q: nat, eq: nat)
      requires Valid()
      modifies this
      ensures Valid() && old(ps) <= ps && tok == Code(old(Ahead())) && (ps < |buf| ==> !IsSpace(buf[ps]))
      ensures old(Ahead()).Nil? ==> Ahead().Nil?
      ensures old(Ahead()).Cons? ==> Ahead() == old(Ahead()).tail && old(ps) < ps
      ensures old(Ahead()).Cons? && old(Ahead()).head.Word? ==>
                IsSpan(buf, Span(q, eq)) && WordText(buf, Span(q, eq)) == old(Ahead()).head.text
    {
      var s := SkipSpace(ps);
      q := s;
      if s == |buf| {
        tok := '\0';
      } else if buf[s] == '>' {
        tok := '>';
        s := s + 1;
        if s < |buf| && buf[s] == '>' {
          tok := '+';
          s := s + 1;
        }
      } else if IsSymbol(buf[s]) {
        tok := buf[s];
        s := s + 1;
      } else {
        tok := 'a';
        while s < |buf| && InWord(buf[s])
          invariant q <= s <= |buf| && WordEnd(buf, q) == WordEnd(buf, s)
        {
          s := s + 1;
        }
      }
      eq := s;
      assert q < |buf| ==> eq == EndOf(buf, q);
      s := SkipSpace(s);
      LexSkip(buf, eq, s);
      ps := s;
    }

    /** peek (sh.c:311-321). */
    method Peek(toks: string) returns (b: bool)
      requires Valid() && forall i :: 0 <= i < |toks| ==> IsSymbol(toks[i])
      modifies this
      ensures Valid() && old(ps) <= ps && Ahead() == old(Ahead())
      ensures (b <==> Starts(Ahead(), toks)) && (ps == |buf| <==> Ahead().Nil?)
    {
      var s := SkipSpace(ps);
      LexSkip(buf, ps, s);
      ps := s;
      b := s < |buf| && buf[s] in toks;
    }

    /** parseredirs (sh.c:375-398). */
    method Parseredirs(c: Cmd<Span>) returns (ok: bool, d: Cmd<Span>)
      requires Valid() && AllSpans(buf, c)
      modifies this
      ensures Valid() && old(ps) <= ps && AllSpans(buf, d)
      ensures Agrees(ok, buf, d, Ahead(), Redirs(Meaning(buf, c), old(Ahead())))
    {
      d := c;
      while true
        invariant Valid() && old(ps) <= ps && AllSpans(buf, d)
        invariant Redirs(Meaning(buf, c), old(Ahead())) == Redirs(Meaning(buf, d), Ahead())
        decreases |buf| - ps
      {
        var more := Peek("<>");
        if !more {
          break;
        }
        ghost var t := Ahead();
        var tok, _, _ := Gettoken();
        var word, q, eq := Gettoken();
        if word != 'a' {
          return false, d;
        }
        d := Redir(d, Span(q, eq), tok != '<');
        assert Redirs(Meaning(buf, d), Ahead()) == Redirs(Meaning(buf, d.cmd), t);
      }
      return true, d;
    }

    /** parseexec (sh.c:416-447), or parseblock (sh.c:400-414) at a parenthesis. */
    method Parseexec() returns (ok: bool, c: Cmd<Span>)
      requires Valid()
      modifies this
      ensures Valid() && old(ps) <= ps && AllSpans(buf, c)
      ensures Agrees(ok, buf, c, Ahead(), Atom(old(Ahead())))
      decreases |buf| - ps, 0
    {
      var block := Peek("(");
      if block {
        ok, c := Parseblock();
        return;
      }
      assert Meaning(buf, Exec([])) == Exec([]);
      ok, c := Parseargs();
    }

    /** The loop over arguments (sh.c:427-446). */
    method Parseargs() returns (ok: bool, c: Cmd<Span>)
      requires Valid()
      modifies this
      ensures Valid() && old(ps) <= ps && AllSpans(buf, c)
      ensures Agrees(ok, buf, c, Ahead(), Args(Exec([]), [], old(Ahead())))
    {
      var args: seq<Span> := [];
      ghost var want := Args(Exec([]), [], Ahead());
      assert ArgText(buf, args) == [] && Meaning(buf, Exec(args)) == Exec([]);
      ok, c := Parseredirs(Exec([]));
      var more := true;
      while ok && more
        invariant Valid() && old(ps) <= ps && AllSpans(buf, c)
        invariant forall i :: 0 <= i < |args| ==> IsSpan(buf, args[i])
        invariant ok ==> want == AfterRedirs(Meaning(buf, c), ArgText(buf, args), Ahead()) && |args| < MAXARGS
        invariant ok && !more ==> Ahead().Stops()
        invariant !ok ==> want.Failed?
        decreases ok, more, |buf| - ps
      {
        ok, more, c, args := Parsearg(c, args);
      }
      FillMeaning(buf, c, args);
      c := Fill(c, args);
    }

    /** One turn: an argument and the redirections behind it, or no more. */
    method Parsearg(c: Cmd<Span>, args: seq<Span>) returns (ok: bool, more: bool, d: Cmd<Span>, args': seq<Span>)
      requires Valid() && AllSpans(buf, c) && |args| < MAXARGS && forall i :: 0 <= i < |args| ==> IsSpan(buf, args[i])
      modifies this
      ensures Valid() && old(ps) <= ps && AllSpans(buf, d) && forall i :: 0 <= i < |args'| ==> IsSpan(buf, args'[i])
      ensures ok ==>
                AfterRedirs(Meaning(buf, d), ArgText(buf, args'), Ahead()) ==
                AfterRedirs(Meaning(buf, c), ArgText(buf, args), old(Ahead()))
      ensures ok ==> |args'| < MAXARGS && (more ==> old(ps) < ps) && (!more ==> Ahead().Stops())
      ensures !ok ==> AfterRedirs(Meaning(buf, c), ArgText(buf, args), old(Ahead())).Failed?
    {
      d, args', ok, more := c, args, true, false;
      var stop := Peek("|)&;");
      if stop {
        return;
      }
      ghost var t := Ahead();
      var tok, q, eq := Gettoken();
      if tok == '\0' {
        return;
      }
      if tok != 'a' {
        ok := false;
        return;
      }
      args' := args + [Span(q, eq)];
      assert ArgText(buf, args') == ArgText(buf, args) + [t.head.text];
      if |args'| >= MAXARGS {
        ok := false;
        return;
      }
      more := true;
      ok, d := Parseredirs(c);
    }

    method Parseblock() returns (ok: bool, c: Cmd<Span>)
      requires Valid() && Ahead().At('(')
      modifies this
      ensures Valid() && old(ps) <= ps && AllSpans(buf, c)
      ensures Agrees(ok, buf, c, Ahead(), Atom(old(Ahead())))
      decreases |buf| - ps, 0, 0
    {
      var _, _, _ := Gettoken();
      ok, c := Parseline();
      if !ok {
        return;
      }
      var close := Peek(")");
      if !close {
        return false, c;
      }
      var _, _, _ := Gettoken();
      ok, c := Parseredirs(c);
    }

    /** parsepipe (sh.c:362-373). */
    method Parsepipe() returns (ok: bool, c: Cmd<Span>)
      requires Valid()
      modifies this
      ensures Valid() && old(ps) <= ps && AllSpans(buf, c)
      ensures Agrees(ok, buf, c, Ahead(), Pipeline(old(Ahead())))
      decreases |buf| - ps, 1
    {
      ok, c := Parseexec();
      if !ok {
        return;
      }
      var more := Peek("|");
      if more {
        var _, _, _ := Gettoken();
        var d;
        ok, d := Parsepipe();
        c := Pipe(c, d);
      }
    }

    /** parseline (sh.c:345-360). */
    method Parseline() returns (ok: bool, c: Cmd<Span>)
      requires Valid()
      modifies this
      ensures Valid() && old(ps) <= ps && AllSpans(buf, c)
      ensures Agrees(ok, buf, c, Ahead(), Line(old(Ahead())))
      decreases |buf| - ps, 2
    {
      ghost var n := Ahead().Len();
      ok, c := Parsepipe();
      if !ok {
        return;
      }
      c := Parsebacks(c, n);
      var list := Peek(";");
      if list {
        var _, _, _ := Gettoken();
        var d;
        ok, d := Parseline();
        c := List(c, d);
      }
    }

    /** The loop over "&" (sh.c:351-354). */
    method Parsebacks(c: Cmd<Span>, ghost n: nat) returns (d: Cmd<Span>)
      requires Valid() && AllSpans(buf, c) && Ahead().Len() <= n
      modifies this
      ensures Valid() && old(ps) <= ps && AllSpans(buf, d) && Ahead().Len() <= n && !Ahead().At('&')
      ensures LineTail(Meaning(buf, d), Ahead(), n) == LineTail(Meaning(buf, c), old(Ahead()), n)
    {
      d := c;
      var more := Peek("&");
      while more
        invariant Valid() && old(ps) <= ps && AllSpans(buf, d) && Ahead().Len() <= n && (more <==> Ahead().At('&'))
        invariant LineTail(Meaning(buf, d), Ahead(), n) == LineTail(Meaning(buf, c), old(Ahead()), n)
        decreases |buf| - ps
      {
        var _, _, _ := Gettoken();
        d := Back(d);
        more := Peek("&");
      }
    }

    /** parsecmd (sh.c:328-343) up to nulterminate: the whole line is a command. */
    method Parsecmd() returns (ok: bool, c: Cmd<Span>)
      requires Valid() && ps == 0
      modifies this
      ensures Valid() && AllSpans(buf, c)
      ensures ok <==> Line(Lex(buf, 0)).Parsed? && Line(Lex(buf, 0)).rest == Nil
      ensures ok ==> Line(Lex(buf, 0)) == Parsed(Meaning(buf, c), Nil)
    {
      ok, c := Parseline();
      if ok {
        var _ := Peek("");
        ok := ps == |buf|;
      }
    }
  }

  /** The rest of parseexec once the redirections in front are read. */
  ghost function AfterRedirs(c: Cmd<string>, args: seq<string>, t: Tokens): Parse {
    if t.Stops() then Parsed(Fill(c, args), t)
    else if !t.head.Word? || |args| + 1 >= MAXARGS then Failed
    else Args(c, args + [t.head.text], t.tail)
  }

  /** The first character of what comes is one of these symbols. */
  predicate Starts(t: Tokens, toks: string) {
    t.Cons? && match t.head
      case Sym(c) => c in toks
      case Append => '>' in toks
      case Word(w) => false
  }

  /** The parser did what the grammar says. */
  ghost predicate Agrees(ok: bool, buf: string, c: Cmd<Span>, ahead: Tokens, want: Parse)
    requires AllSpans(buf, c)
  {
    if ok then want == Parsed(Meaning(buf, c), ahead) else want.Failed?
  }

  /* nulterminate (sh.c:450-494). */

  predicate HasSpan(c: Cmd<Span>, w: Span) {
    match c
    case Exec(args) => w in args
    case Redir(d, f, _) => HasSpan(d, w) || w == f
    case Pipe(l, r) => HasSpan(l, w) || HasSpan(r, w)
    case List(l, r) => HasSpan(l, w) || HasSpan(r, w)
    case Back(d) => HasSpan(d, w)
  }

  /** Some word of the tree ends here. */
  predicate EndsAt(c: Cmd<Span>, k: nat) {
    match c
    case Exec(args) => exists i :: 0 <= i < |args| && args[i].eq == k
    case Redir(d, f, _) => EndsAt(d, k) || f.eq == k
    case Pipe(l, r) => EndsAt(l, k) || EndsAt(r, k)
    case List(l, r) => EndsAt(l, k) || EndsAt(r, k)
    case Back(d) => EndsAt(d, k)
  }

  method Nulterminate(c: Cmd<Span>, ghost buf: string, a: array<char>)
    requires AllSpans(buf, c) && a.Length == |buf| + 1
    modifies a
    ensures forall k :: 0 <= k < a.Length ==> a[k] == if EndsAt(c, k) then '\0' else old(a[k])
    decreases c
  {
    match c
    case Exec(args) =>
      var i := 0;
      while i < |args|
        invariant 0 <= i <= |args|
        invariant forall k :: 0 <= k < a.Length ==>
                  a[k] == if exists j :: 0 <= j < i && args[j].eq == k then '\0' else old(a[k])
      {
        assert IsSpan(buf, args[i]);
        a[args[i].eq] := '\0';
        i := i + 1;
      }
    case Redir(d, f, _) =>
      Nulterminate(d, buf, a);
      a[f.eq] := '\0';
    case Pipe(l, r) =>
      Nulterminate(l, buf, a);
      Nulterminate(r, buf, a);
    case List(l, r) =>
      Nulterminate(l, buf, a);
      Nulterminate(r, buf, a);
    case Back(d) =>
      Nulterminate(d, buf, a);
  }

  /** Only separators, and the end of the line, are overwritten. */
  lemma {:induction false} EndsSeparate(buf: string, c: Cmd<Span>, k: nat)
    requires AllSpans(buf, c) && EndsAt(c, k)
    ensures k <= |buf| && (k < |buf| ==> !InWord(buf[k]))
  {
    match c
    case Exec(args) =>
      var i :| 0 <= i < |args| && args[i].eq == k;
      assert IsSpan(buf, args[i]);
    case Redir(d, f, _) =>
      if EndsAt(d, k) {
        EndsSeparate(buf, d, k);
      }
    case Pipe(l, r) => EndsSeparate(buf, if EndsAt(l, k) then l else r, k);
    case List(l, r) => EndsSeparate(buf, if EndsAt(l, k) then l else r, k);
    case Back(d) => EndsSeparate(buf, d, k);
  }

  lemma {:induction false} SpanEnds(buf: string, c: Cmd<Span>, w: Span)
    requires AllSpans(buf, c) && HasSpan(c, w)
    ensures IsSpan(buf, w) && EndsAt(c, w.eq)
  {
    match c
    case Exec(args) =>
      var i :| 0 <= i < |args| && args[i] == w;
      assert IsSpan(buf, args[i]);
    case Redir(d, f, _) =>
      if HasSpan(d, w) {
        SpanEnds(buf, d, w);
      }
    case Pipe(l, r) => SpanEnds(buf, if HasSpan(l, w) then l else r, w);
    case List(l, r) => SpanEnds(buf, if HasSpan(l, w) then l else r, w);
    case Back(d) => SpanEnds(buf, d, w);
  }

  /** The C string at a place: up to the first NUL. */
  function StringAt(s: string, q: nat): string
    requires q <= |s|
    decreases |s| - q
  {
    if q == |s| || s[q] == '\0' then "" else [s[q]] + StringAt(s, q + 1)
  }

  lemma {:induction false} StringIs(s: string, q: nat, e: nat)
    requires q <= e < |s| && s[e] == '\0' && forall k :: q <= k < e ==> s[k] != '\0'
    ensures StringAt(s, q) == s[q..e]
    decreases e - q
  {
    if q < e {
      StringIs(s, q + 1, e);
      assert s[q..e] == [s[q]] + s[q + 1..e];
    }
  }

  /** Once the words are terminated, each reads as the word that was parsed. */
  lemma WordsIntact(buf: string, c: Cmd<Span>, s: string, w: Span)
    requires CString(buf) && AllSpans(buf, c) && HasSpan(c, w) && |s| == |buf| + 1
    requires forall k :: 0 <= k < |buf| ==> s[k] == if EndsAt(c, k) then '\0' else buf[k]
    requires s[|buf|] == '\0'
    ensures IsSpan(buf, w) && StringAt(s, w.q) == WordText(buf, w)
  {
    SpanEnds(buf, c, w);
    forall k | w.q <= k < w.eq ensures s[k] == buf[k] {
      if EndsAt(c, k) {
        EndsSeparate(buf, c, k);
      }
    }
    StringIs(s, w.q, w.eq);
    assert s[w.q..w.eq] == buf[w.q..w.eq];
  }

  /** parsecmd: the tree of the line, and the line with its words terminated. */
  method ReadCommand(buf: string) returns (ok: bool, c: Cmd<Span>, a: array<char>)
    requires CString(buf)
    ensures fresh(a) && AllSpans(buf, c)
    ensures ok <==> Line(Lex(buf, 0)).Parsed? && Line(Lex(buf, 0)).rest == Nil
    ensures ok ==> Line(Lex(buf, 0)) == Parsed(Meaning(buf, c), Nil)
    ensures ok ==> forall w :: HasSpan(c, w) ==>
              IsSpan(buf, w) && w.q <= a.Length && StringAt(a[..], w.q) == WordText(buf, w)
    ensures ok ==> a.Length == |buf| + 1
    ensures ok ==> forall k :: 0 <= k < |buf| ==> k < a.Length && (a[k] == buf[k] || (a[k] == '\0' && !InWord(buf[k])))
  {
    a := new char[|buf| + 1](i => if 0 <= i < |buf| then buf[i] else '\0');
    var p := new Parser(buf);
    ok, c := p.Parsecmd();
    if ok {
      Nulterminate(c, buf, a);
      forall w | HasSpan(c, w) ensures IsSpan(buf, w) && w.q <= a.Length && StringAt(a[..], w.q) == WordText(buf, w) {
        WordsIntact(buf, c, a[..], w);
      }
      forall k | 0 <= k < |buf| ensures a[k] == buf[k] || (a[k] == '\0' && !InWord(buf[k])) {
        if EndsAt(c, k) {
          EndsSeparate(buf, c, k);
        }
      }
    }
  }

  /* The round trip. */

  predicate GoodWord(w: string) {
    |w| > 0 && forall k :: 0 <= k < |w| ==> InWord(w[k]) && w[k] != '\0'
  }

  predicate GoodWords(c: Cmd<string>) {
    AllWords(c, GoodWord)
  }

  lemma {:induction false} WordsWritable(args: seq<string>, k: Tokens)
    requires AllWritable(k) && forall i :: 0 <= i < |args| ==> GoodWord(args[i])
    ensures AllWritable(Words(args, k))
  {
    if |args| > 0 {
      WordsWritable(args[1..], k);
    }
  }

  lemma {:induction false} AtomWritable(c: Cmd<string>, k: Tokens)
    requires GoodWords(c) && AllWritable(k)
    ensures AllWritable(PrintAtom(c, k))
    decreases Size(c), if Simple(c) then 0 else 4
  {
    match c
    case Exec(args) => WordsWritable(args, k);
    case Redir(d, f, o) => AtomWritable(d, Redirection(f, o, k));
    case _ => LineWritable(c, Cons(Sym(')'), k));
  }

  lemma {:induction false} PipeWritable(c: Cmd<string>, k: Tokens)
    requires GoodWords(c) && AllWritable(k)
    ensures AllWritable(PrintPipe(c, k))
    decreases Size(c), if c.List? || c.Back? then 4 else 1
  {
    if c.Pipe? {
      PipeWritable(c.right, k);
      AtomWritable(c.left, Cons(Sym('|'), PrintPipe(c.right, k)));
    } else if Simple(c) {
      AtomWritable(c, k);
    } else {
      LineWritable(c, Cons(Sym(')'), k));
    }
  }

  lemma {:induction false} BackWritable(c: Cmd<string>, k: Tokens)
    requires GoodWords(c) && AllWritable(k)
    ensures AllWritable(PrintBack(c, k))
    decreases Size(c), if c.List? then 5 else 2
  {
    match c
    case Back(d) => BackWritable(d, Cons(Sym('&'), k));
    case _ => PipeWritable(c, k);
  }

  lemma {:induction false} LineWritable(c: Cmd<string>, k: Tokens)
    requires GoodWords(c) && AllWritable(k)
    ensures AllWritable(PrintLine(c, k))
    decreases Size(c), 3
  {
    match c
    case List(l, r) =>
      LineWritable(r, k);
      BackWritable(l, Cons(Sym(';'), PrintLine(r, k)));
    case _ => BackWritable(c, k);
  }

  lemma {:induction false} TextIsString(t: Tokens)
    requires AllWritable(t)
    ensures CString(Text(t))
  {
    if t.Cons? {
      TextIsString(t.tail);
    }
  }

  /** The canonical text of a command. */
  function Print(c: Cmd<string>): string {
    Text(PrintLine(c, Nil))
  }

  /** Parsing the text of any command of at most nine arguments each gives that
      command. */
  lemma PrintParses(c: Cmd<string>)
    requires Fits(c) && GoodWords(c)
    ensures CString(Print(c)) && Line(Lex(Print(c), 0)) == Parsed(c, Nil)
  {
    LineWritable(c, Nil);
    LexText(PrintLine(c, Nil));
    TextIsString(PrintLine(c, Nil));
    LineRead(c, Nil);
  }

  method ReadPrinted(c: Cmd<string>) returns (d: Cmd<Span>)
    requires Fits(c) && GoodWords(c)
    ensures AllSpans(Print(c), d) && Meaning(Print(c), d) == c
  {
    PrintParses(c);
    var ok, e, a := ReadCommand(Print(c));
    d := e;
  }

  /* The way back: from text to tree to text. */

  lemma {:induction false} LexWritable(buf: string, s: nat)
    requires CString(buf) && s <= |buf|
    ensures AllWritable(Lex(buf, s)) && GoodTokens(Lex(buf, s), GoodWord)
    decreases |buf| - s
  {
    var a := Skip(buf, s);
    if a < |buf| {
      LexWritable(buf, EndOf(buf, a));
    }
  }

  /** Every line the parser accepts gives a tree that can be printed, and the
      print is read back as the same tree. */
  lemma AcceptedPrints(buf: string)
    requires CString(buf) && Line(Lex(buf, 0)).Parsed?
    ensures var c := Line(Lex(buf, 0)).cmd; Fits(c) && GoodWords(c) && Line(Lex(Print(c), 0)) == Parsed(c, Nil)
  {
    LexWritable(buf, 0);
    LineGood(Lex(buf, 0), GoodWord);
    PrintParses(Line(Lex(buf, 0)).cmd);
  }

  lemma ThreeText(x: Token, y: Token, z: Token)
    ensures Text(Cons(x, Cons(y, Cons(z, Nil)))) == TokenText(x) + " " + TokenText(y) + " " + TokenText(z) + " "
  {
    var a, b, c := TokenText(x), TokenText(y), TokenText(z);
    assert Text(Cons(z, Nil)) == c + " " + Text(Nil) == c + " ";
    assert Text(Cons(y, Cons(z, Nil))) == b + " " + (c + " ");
    assert a + " " + (b + " " + (c + " ")) == a + " " + b + " " + c + " ";
  }

  lemma ThreeWritable(x: Token, y: Token, z: Token)
    requires Writable(x) && Writable(y) && Writable(z)
    ensures AllWritable(Cons(x, Cons(y, Cons(z, Nil))))
  {
    assert AllWritable(Cons(z, Nil)) && AllWritable(Cons(y, Cons(z, Nil)));
  }

  lemma ThreeTokens(x: Token, y: Token, z: Token, line: string)
    requires Writable(x) && Writable(y) && Writable(z)
    requires line == TokenText(x) + " " + TokenText(y) + " " + TokenText(z) + " "
    ensures Lex(line, 0) == Cons(x, Cons(y, Cons(z, Nil)))
  {
    ThreeText(x, y, z);
    ThreeWritable(x, y, z);
    LexText(Cons(x, Cons(y, Cons(z, Nil))));
  }

  lemma TokensLine(x: string, op: char, y: string)
    requires Writable(Word(x)) && Writable(Word(y)) && Writable(Sym(op))
    ensures Lex(x + " " + [op] + " " + y + " ", 0) == Cons(Word(x), Cons(Sym(op), Cons(Word(y), Nil)))
  {
    ThreeTokens(Word(x), Sym(op), Word(y), x + " " + [op] + " " + y + " ");
  }

  /** What the operators of a line mean: two commands joined by a bar or by a
      semicolon, and a command with its input or its output in a file. */
  lemma Operators(x: string, y: string)
    requires Writable(Word(x)) && Writable(Word(y))
    ensures Line(Lex(x + " " + "|" + " " + y + " ", 0)) == Parsed(Pipe(Exec([x]), Exec([y])), Nil)
    ensures Line(Lex(x + " " + ";" + " " + y + " ", 0)) == Parsed(List(Exec([x]), Exec([y])), Nil)
    ensures Line(Lex(x + " " + "<" + " " + y + " ", 0)) == Parsed(Redir(Exec([x]), y, false), Nil)
    ensures Line(Lex(x + " " + ">" + " " + y + " ", 0)) == Parsed(Redir(Exec([x]), y, true), Nil)
  {
    TokensLine(x, '|', y);
    TokensLine(x, ';', y);
    TokensLine(x, '<', y);
    TokensLine(x, '>', y);
    BarRead(x, y);
    SemicolonRead(x, y);
    RedirectedRead(x, y, Sym('<'));
    RedirectedRead(x, y, Sym('>'));
  }

  lemma AppendLine()
    ensures Line(Lex("a >> f ", 0)) == Parsed(Redir(Exec(["a"]), "f", true), Nil)
  {
    assert "a" + " " + ">>" + " " + "f" + " " == "a >> f ";
    ThreeTokens(Word("a"), Append, Word("f"), "a >> f ");
    RedirectedRead("a", "f", Append);
  }

  lemma OverwriteLine()
    ensures Line(Lex("a > f ", 0)) == Parsed(Redir(Exec(["a"]), "f", true), Nil)
  {
    assert "a" + " " + ['>'] + " " + "f" + " " == "a > f ";
    ThreeTokens(Word("a"), Sym('>'), Word("f"), "a > f ");
    RedirectedRead("a", "f", Sym('>'));
  }

  /** A line with ">>" has the tree of the line with ">". */
  lemma AppendOverwrites()
    ensures Line(Lex("a >> f ", 0)) == Line(Lex("a > f ", 0)) == Parsed(Redir(Exec(["a"]), "f", true), Nil)
  {
    AppendLine();
    OverwriteLine();
  }
}
