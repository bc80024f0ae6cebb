/** The shell's command language (sh.c:345-447) on tokens: what its parser
    accepts, and how a command tree is written so that it is read back. */
module ShellGrammar {
  const MAXARGS: nat := 10

  /** A symbol, ">>", or a word. */
  datatype Token = Sym(c: char) | Append | Word(text: string)

  datatype Tokens = Nil | Cons(head: Token, tail: Tokens) {
    function Len(): nat {
      if Nil? then 0 else 1 + tail.Len()
    }

    predicate At(c: char) {
      Cons? && head == Sym(c)
    }

    /** What peek(ps, es, "|)&;") tests, the end of the line included. */
    predicate Stops() {
      Nil? || head in {Sym('|'), Sym(')'), Sym('&'), Sym(';')}
    }

    predicate Redirects() {
      Cons? && head in {Sym('<'), Sym('>'), Append}
    }
  }

  /** A command, with words of type W (sh.c:15-47).  Input is redirected with
      O_RDONLY to descriptor 0, output with O_WRONLY|O_CREATE to 1. */
  datatype Cmd<W> =
    | Exec(args: seq<W>)
    | Redir(cmd: Cmd<W>, file: W, output: bool)
    | Pipe(left: Cmd<W>, right: Cmd<W>)
    | List(left: Cmd<W>, right: Cmd<W>)
    | Back(cmd: Cmd<W>)

  datatype Parse = Parsed(cmd: Cmd<string>, rest: Tokens) | Failed

  /* What the parser accepts, and the tree it makes. */

  /** parseredirs: each redirection goes around those before it. */
  function Redirs(c: Cmd<string>, t: Tokens): (r: Parse)
    ensures r.Parsed? ==> r.rest.Len() <= t.Len() && !r.rest.Redirects()
    decreases t.Len()
  {
    if !t.Redirects() then Parsed(c, t)
    else if t.tail.Nil? || !t.tail.head.Word? then Failed
    else assert t.Len() == 1 + t.tail.Len(); Redirs(Redir(c, t.tail.head.text, t.head != Sym('<')), t.tail.tail)
  }

  /** Put the arguments into the innermost command, under its redirections. */
  function Fill<W>(c: Cmd<W>, args: seq<W>): Cmd<W> {
    match c
    case Redir(d, f, o) => Redir(Fill(d, args), f, o)
    case _ => Exec(args)
  }

  /** parseexec from the redirections on: c is what has been made so far around
      a command whose arguments are args. */
  function Args(c: Cmd<string>, args: seq<string>, t: Tokens): (r: Parse)
    ensures r.Parsed? ==> r.rest.Len() <= t.Len()
    decreases t.Len()
  {
    match Redirs(c, t)
    case Failed => Failed
    case Parsed(d, rest) =>
      if rest.Stops() then Parsed(Fill(d, args), rest)
      else if !rest.head.Word? || |args| + 1 >= MAXARGS then Failed
      else Args(d, args + [rest.head.text], rest.tail)
  }

  /** parseexec and parseblock. */
  function Atom(t: Tokens): (r: Parse)
    ensures r.Parsed? ==> r.rest.Len() <= t.Len()
    decreases t.Len(), 0
  {
    if t.At('(') then
      match Line(t.tail)
      case Failed => Failed
      case Parsed(c, rest) => if rest.At(')') then Redirs(c, rest.tail) else Failed
    else Args(Exec([]), [], t)
  }

  /** parsepipe. */
  function Pipeline(t: Tokens): (r: Parse)
    ensures r.Parsed? ==> r.rest.Len() <= t.Len()
    decreases t.Len(), 1
  {
    match Atom(t)
    case Failed => Failed
    case Parsed(c, rest) =>
      if !rest.At('|') then Parsed(c, rest)
      else match Pipeline(rest.tail)
        case Failed => Failed
        case Parsed(d, rest') => Parsed(Pipe(c, d), rest')
  }

  /** parseline. */
  function Line(t: Tokens): (r: Parse)
    ensures r.Parsed? ==> r.rest.Len() <= t.Len()
    decreases t.Len(), 2
  {
    match Pipeline(t)
    case Failed => Failed
    case Parsed(c, rest) => LineTail(c, rest, t.Len())
  }

  /** The "&"s and the ";" after a pipeline; n bounds what is left. */
  function LineTail(c: Cmd<string>, t: Tokens, ghost n: nat): (r: Parse)
    requires t.Len() <= n
    ensures r.Parsed? ==> r.rest.Len() <= t.Len()
    decreases n, 1, t.Len()
  {
    if t.At('&') then LineTail(Back(c), t.tail, n)
    else if t.At(';') then
      match Line(t.tail)
      case Failed => Failed
      case Parsed(d, rest) => Parsed(List(c, d), rest)
    else Parsed(c, t)
  }

  /* Writing a command: tokens in front of what follows. */

  function Words(args: seq<string>, k: Tokens): Tokens {
    if |args| == 0 then k else Cons(Word(args[0]), Words(args[1..], k))
  }

  function Redirection(file: string, output: bool, k: Tokens): Tokens {
    Cons(Sym(if output then '>' else '<'), Cons(Word(file), k))
  }

  predicate Simple<W>(c: Cmd<W>) {
    c.Exec? || c.Redir?
  }

  function Size<W>(c: Cmd<W>): nat {
    match c
    case Exec(_) => 0
    case Redir(d, _, _) => 1 + Size(d)
    case Pipe(l, r) => 1 + Size(l) + Size(r)
    case List(l, r) => 1 + Size(l) + Size(r)
    case Back(d) => 1 + Size(d)
  }

  function PrintAtom(c: Cmd<string>, k: Tokens): Tokens
    decreases Size(c), if Simple(c) then 0 else 4
  {
    match c
    case Exec(args) => Words(args, k)
    case Redir(d, f, o) => PrintAtom(d, Redirection(f, o, k))
    case _ => Cons(Sym('('), PrintLine(c, Cons(Sym(')'), k)))
  }

  function PrintPipe(c: Cmd<string>, k: Tokens): Tokens
    decreases Size(c), if c.List? || c.Back? then 4 else 1
  {
    if c.Pipe? then PrintAtom(c.left, Cons(Sym('|'), PrintPipe(c.right, k)))
    else if Simple(c) then PrintAtom(c, k)
    else Cons(Sym('('), PrintLine(c, Cons(Sym(')'), k)))
  }

  function PrintBack(c: Cmd<string>, k: Tokens): Tokens
    decreases Size(c), if c.List? then 5 else 2
  {
    match c
    case Back(d) => PrintBack(d, Cons(Sym('&'), k))
    case _ => PrintPipe(c, k)
  }

  function PrintLine(c: Cmd<string>, k: Tokens): Tokens
    decreases Size(c), 3
  {
    match c
    case List(l, r) => PrintBack(l, Cons(Sym(';'), PrintLine(r, k)))
    case _ => PrintBack(c, k)
  }

  /* Reading it back. */

  /** At most nine arguments each. */
  predicate Fits<W>(c: Cmd<W>) {
    match c
    case Exec(args) => |args| < MAXARGS
    case Redir(d, _, _) => Fits(d)
    case Pipe(l, r) => Fits(l) && Fits(r)
    case List(l, r) => Fits(l) && Fits(r)
    case Back(d) => Fits(d)
  }

  /** The redirections a command ends in, written in front of what follows. */
  function Outer(c: Cmd<string>, k: Tokens): Tokens {
    match c
    case Redir(d, f, o) => Outer(d, Redirection(f, o, k))
    case _ => k
  }

  /** The command under the redirections. */
  function Core<W>(c: Cmd<W>): (d: Cmd<W>)
    ensures !d.Redir? && Size(d) <= Size(c) && (c.Redir? ==> Size(d) < Size(c)) && (Fits(c) ==> Fits(d))
  {
    match c
    case Redir(d, _, _) => Core(d)
    case _ => c
  }

  lemma {:induction false} PrintCore(c: Cmd<string>, k: Tokens)
    ensures PrintAtom(c, k) == PrintAtom(Core(c), Outer(c, k))
  {
    match c
    case Redir(d, f, o) => PrintCore(d, Redirection(f, o, k));
    case _ =>
  }

  /** Redirections around b are read back, in their order. */
  lemma {:induction false} RedirsRead(b: Cmd<string>, c: Cmd<string>, k: Tokens)
    requires !k.Redirects() && Core(c) == b
    ensures Redirs(b, Outer(c, k)) == Parsed(c, k)
  {
    RedirsOn(b, c, k);
  }

  lemma {:induction false} RedirsOn(b: Cmd<string>, c: Cmd<string>, k: Tokens)
    requires Core(c) == b
    ensures Redirs(b, Outer(c, k)) == Redirs(c, k)
  {
    match c
    case Redir(d, f, o) =>
      RedirsOn(b, d, Redirection(f, o, k));
      assert Redirs(d, Redirection(f, o, k)) == Redirs(Redir(d, f, o), k);
    case _ =>
  }

  /** The redirections around no arguments. */
  function Hollow(c: Cmd<string>): Cmd<string> {
    match c
    case Redir(d, f, o) => Redir(Hollow(d), f, o)
    case _ => Exec([])
  }

  lemma {:induction false} HollowFilled(c: Cmd<string>, k: Tokens)
    requires Core(c).Exec?
    ensures Core(Hollow(c)) == Exec([]) && Outer(Hollow(c), k) == Outer(c, k) && Fill(Hollow(c), Core(c).args) == c
  {
    match c
    case Redir(d, f, o) => HollowFilled(d, Redirection(f, o, k));
    case _ =>
  }

  lemma {:induction false} WordsRead(pre: seq<string>, args: seq<string>, t: Tokens)
    requires |pre| + |args| < MAXARGS
    ensures Args(Exec([]), pre, Words(args, t)) == Args(Exec([]), pre + args, t)
    decreases |args|
  {
    if |args| == 0 {
      assert pre + args == pre;
    } else {
      WordsRead(pre + [args[0]], args[1..], t);
      assert pre + [args[0]] + args[1..] == pre + args;
      assert Words(args, t) == Cons(Word(args[0]), Words(args[1..], t));
      assert Redirs(Exec([]), Words(args, t)) == Parsed(Exec([]), Words(args, t));
    }
  }

  /** parseexec reads a command with arguments and redirections back. */
  lemma ExecRead(c: Cmd<string>, k: Tokens)
    requires Core(c).Exec? && Fits(c) && k.Stops()
    ensures Atom(PrintAtom(c, k)) == Parsed(c, k)
  {
    var args := Core(c).args;
    PrintCore(c, k);
    HollowFilled(c, k);
    WordsRead([], args, Outer(c, k));
    assert [] + args == args;
    RedirsRead(Exec([]), Hollow(c), k);
    OuterHead(c, k);
    assert !Words(args, Outer(c, k)).At('(');
  }

  lemma {:induction false} OuterHead(c: Cmd<string>, k: Tokens)
    requires !k.At('(')
    ensures !Outer(c, k).At('(')
  {
    match c
    case Redir(d, f, o) => OuterHead(d, Redirection(f, o, k));
    case _ =>
  }

  lemma {:induction false} AtomRead(c: Cmd<string>, k: Tokens)
    requires Fits(c) && k.Stops()
    ensures Atom(PrintAtom(c, k)) == Parsed(c, k)
    decreases Size(c), if Simple(c) then 0 else 4
  {
    if Core(c).Exec? {
      ExecRead(c, k);
    } else {
      var b, t := Core(c), Outer(c, k);
      PrintCore(c, k);
      LineRead(b, Cons(Sym(')'), t));
      RedirsRead(b, c, k);
    }
  }

  lemma {:induction false} PipeRead(c: Cmd<string>, k: Tokens)
    requires Fits(c) && k.Stops() && !k.At('|')
    ensures Pipeline(PrintPipe(c, k)) == Parsed(c, k)
    decreases Size(c), if c.List? || c.Back? then 5 else 1
  {
    if c.Pipe? {
      PipeRead(c.right, k);
      AtomRead(c.left, Cons(Sym('|'), PrintPipe(c.right, k)));
    } else {
      AtomRead(c, k);
      assert PrintPipe(c, k) == PrintAtom(c, k);
    }
  }

  lemma {:induction false} BackRead(c: Cmd<string>, k: Tokens, n: nat)
    requires Fits(c) && k.Stops() && !k.At('|') && k.Len() <= n
    ensures Line(PrintBack(c, k)) == LineTail(c, k, n)
    decreases Size(c), if c.List? then 6 else 2
  {
    match c
    case Back(d) =>
      BackRead(d, Cons(Sym('&'), k), n + 1);
      TailBound(c, k, n, n + 1);
    case _ =>
      PipeRead(c, k);
      var t := PrintPipe(c, k);
      TailBound(c, k, n, t.Len());
  }

  /** The bound is only there for termination. */
  lemma {:induction false} TailBound(c: Cmd<string>, t: Tokens, n: nat, m: nat)
    requires t.Len() <= n && t.Len() <= m
    ensures LineTail(c, t, n) == LineTail(c, t, m)
    decreases t.Len()
  {
    if t.At('&') {
      TailBound(Back(c), t.tail, n, m);
    }
  }

  /** Any command tree, written out, is read back as itself. */
  lemma {:induction false} LineRead(c: Cmd<string>, k: Tokens)
    requires Fits(c) && (k.Nil? || k.At(')'))
    ensures Line(PrintLine(c, k)) == Parsed(c, k)
    decreases Size(c), 3
  {
    match c
    case List(l, r) =>
      LineRead(r, k);
      var t := Cons(Sym(';'), PrintLine(r, k));
      BackRead(l, t, t.Len());
    case _ =>
      BackRead(c, k, k.Len());
  }

  /* ">>" and ">". */

  /** Every ">>" replaced by ">". */
  function Plain(t: Tokens): (r: Tokens)
    ensures r.Len() == t.Len()
  {
    if t.Nil? then Nil else Cons(if t.head == Append then Sym('>') else t.head, Plain(t.tail))
  }

  function PlainRest(r: Parse): Parse {
    if r.Failed? then Failed else Parsed(r.cmd, Plain(r.rest))
  }

  lemma {:induction false} RedirsPlain(c: Cmd<string>, t: Tokens)
    ensures Redirs(c, Plain(t)) == PlainRest(Redirs(c, t))
    decreases t.Len()
  {
    if t.Redirects() && t.tail.Cons? && t.tail.head.Word? {
      assert Plain(t).tail.tail == Plain(t.tail.tail) && t.tail.tail.Len() < t.Len();
      RedirsPlain(Redir(c, t.tail.head.text, t.head != Sym('<')), t.tail.tail);
    }
  }

  lemma {:induction false} ArgsPlain(c: Cmd<string>, args: seq<string>, t: Tokens)
    ensures Args(c, args, Plain(t)) == PlainRest(Args(c, args, t))
    decreases t.Len()
  {
    RedirsPlain(c, t);
    match Redirs(c, t)
    case Failed =>
    case Parsed(d, rest) =>
      if !rest.Stops() && rest.head.Word? && |args| + 1 < MAXARGS {
        ArgsPlain(d, args + [rest.head.text], rest.tail);
      }
  }

  lemma {:induction false} AtomPlain(t: Tokens)
    ensures Atom(Plain(t)) == PlainRest(Atom(t))
    decreases t.Len(), 0
  {
    if t.At('(') {
      LinePlain(t.tail);
      match Line(t.tail)
      case Failed =>
      case Parsed(c, rest) =>
        if rest.At(')') {
          RedirsPlain(c, rest.tail);
        }
    } else {
      ArgsPlain(Exec([]), [], t);
    }
  }

  lemma {:induction false} PipelinePlain(t: Tokens)
    ensures Pipeline(Plain(t)) == PlainRest(Pipeline(t))
    decreases t.Len(), 1
  {
    AtomPlain(t);
    match Atom(t)
    case Failed =>
    case Parsed(c, rest) =>
      if rest.At('|') {
        PipelinePlain(rest.tail);
      }
  }

  lemma {:induction false} TailPlain(c: Cmd<string>, t: Tokens, n: nat)
    requires t.Len() <= n
    ensures LineTail(c, Plain(t), n) == PlainRest(LineTail(c, t, n))
    decreases n, 1, t.Len()
  {
    if t.At('&') {
      TailPlain(Back(c), t.tail, n);
    } else if t.At(';') {
      LinePlain(t.tail);
    }
  }

  /** The parser does not tell ">>" from ">": on every line the two give the
      same tree, or fail alike. */
  lemma {:induction false} LinePlain(t: Tokens)
    ensures Line(Plain(t)) == PlainRest(Line(t))
    decreases t.Len(), 2
  {
    PipelinePlain(t);
    match Pipeline(t)
    case Failed =>
    case Parsed(c, rest) => TailPlain(c, rest, t.Len());
  }

  /* The operators. */

  lemma OneWord(a: string, k: Tokens)
    requires k.Stops()
    ensures Atom(Cons(Word(a), k)) == Parsed(Exec([a]), k)
  {
    var t := Cons(Word(a), k);
    assert Redirs(Exec([]), t) == Parsed(Exec([]), t) && Redirs(Exec([]), k) == Parsed(Exec([]), k);
    assert [] + [a] == [a] && Fill(Exec([]), [a]) == Exec([a]);
    assert Args(Exec([]), [], t) == Args(Exec([]), [a], k) == Parsed(Exec([a]), k);
  }

  lemma OneCommand(a: string)
    ensures Pipeline(Cons(Word(a), Nil)) == Line(Cons(Word(a), Nil)) == Parsed(Exec([a]), Nil)
  {
    OneWord(a, Nil);
  }

  /** A bar joins two commands in a pipe, the left one first; a semicolon joins
      them in a list; an ampersand puts the one before it in the background. */
  lemma BarRead(a: string, b: string)
    ensures Line(Cons(Word(a), Cons(Sym('|'), Cons(Word(b), Nil)))) == Parsed(Pipe(Exec([a]), Exec([b])), Nil)
  {
    OneWord(a, Cons(Sym('|'), Cons(Word(b), Nil)));
    OneCommand(b);
  }

  lemma SemicolonRead(a: string, b: string)
    ensures Line(Cons(Word(a), Cons(Sym(';'), Cons(Word(b), Nil)))) == Parsed(List(Exec([a]), Exec([b])), Nil)
  {
    var t := Cons(Sym(';'), Cons(Word(b), Nil));
    OneWord(a, t);
    OneCommand(b);
    assert Pipeline(Cons(Word(a), t)) == Parsed(Exec([a]), t);
  }

  lemma AmpersandRead(a: string)
    ensures Line(Cons(Word(a), Cons(Sym('&'), Nil))) == Parsed(Back(Exec([a])), Nil)
  {
    var t := Cons(Sym('&'), Nil);
    OneWord(a, t);
    assert Pipeline(Cons(Word(a), t)) == Parsed(Exec([a]), t);
    assert LineTail(Exec([a]), t, 2) == LineTail(Back(Exec([a])), Nil, 2);
  }

  lemma RedirectedRead(a: string, f: string, op: Token)
    requires op in {Append, Sym('>'), Sym('<')}
    ensures Line(Cons(Word(a), Cons(op, Cons(Word(f), Nil)))) == Parsed(Redir(Exec([a]), f, op != Sym('<')), Nil)
  {
    var t1 := Cons(op, Cons(Word(f), Nil));
    var t := Cons(Word(a), t1);
    var c := Redir(Exec([]), f, op != Sym('<'));
    assert Redirs(Exec([]), t1) == Redirs(c, Nil) == Parsed(c, Nil);
    assert Fill(c, [a]) == Redir(Exec([a]), f, op != Sym('<'));
    assert [] + [a] == [a] && Redirs(Exec([]), t) == Parsed(Exec([]), t);
    assert Args(Exec([]), [], t) == Args(Exec([]), [a], t1) == Parsed(Fill(c, [a]), Nil);
    assert Atom(t) == Pipeline(t) == Line(t);
  }

  /* What comes out of the parser. */

  /** A word the lexer can produce. */
  predicate GoodToken(t: Token, good: string -> bool) {
    t.Word? ==> good(t.text)
  }

  predicate GoodTokens(t: Tokens, good: string -> bool) {
    t.Cons? ==> GoodToken(t.head, good) && GoodTokens(t.tail, good)
  }

  predicate AllWords(c: Cmd<string>, good: string -> bool) {
    match c
    case Exec(args) => forall i :: 0 <= i < |args| ==> good(args[i])
    case Redir(d, f, _) => AllWords(d, good) && good(f)
    case Pipe(l, r) => AllWords(l, good) && AllWords(r, good)
    case List(l, r) => AllWords(l, good) && AllWords(r, good)
    case Back(d) => AllWords(d, good)
  }

  /** A tree that fits, of good words, in front of good tokens. */
  predicate GoodParse(r: Parse, good: string -> bool) {
    r.Parsed? ==> Fits(r.cmd) && AllWords(r.cmd, good) && GoodTokens(r.rest, good)
  }

  lemma {:induction false} RedirsGood(c: Cmd<string>, t: Tokens, good: string -> bool)
    requires Fits(c) && AllWords(c, good) && GoodTokens(t, good)
    ensures GoodParse(Redirs(c, t), good)
    decreases t.Len()
  {
    if t.Redirects() && t.tail.Cons? && t.tail.head.Word? {
      assert t.tail.tail.Len() < t.Len();
      RedirsGood(Redir(c, t.tail.head.text, t.head != Sym('<')), t.tail.tail, good);
    }
  }

  lemma {:induction false} FillGood(c: Cmd<string>, args: seq<string>, good: string -> bool)
    requires AllWords(c, good) && |args| < MAXARGS && forall i :: 0 <= i < |args| ==> good(args[i])
    ensures Fits(Fill(c, args)) && AllWords(Fill(c, args), good)
  {
    match c
    case Redir(d, _, _) => FillGood(d, args, good);
    case _ =>
  }

  lemma {:induction false} ArgsGood(c: Cmd<string>, args: seq<string>, t: Tokens, good: string -> bool)
    requires Fits(c) && AllWords(c, good) && GoodTokens(t, good)
    requires |args| < MAXARGS && forall i :: 0 <= i < |args| ==> good(args[i])
    ensures GoodParse(Args(c, args, t), good)
    decreases t.Len()
  {
    RedirsGood(c, t, good);
    match Redirs(c, t)
    case Failed =>
    case Parsed(d, rest) =>
      if rest.Stops() {
        FillGood(d, args, good);
      } else if rest.head.Word? && |args| + 1 < MAXARGS {
        ArgsGood(d, args + [rest.head.text], rest.tail, good);
      }
  }

  lemma {:induction false} AtomGood(t: Tokens, good: string -> bool)
    requires GoodTokens(t, good)
    ensures GoodParse(Atom(t), good)
    decreases t.Len(), 0
  {
    if t.At('(') {
      LineGood(t.tail, good);
      match Line(t.tail)
      case Failed =>
      case Parsed(c, rest) =>
        if rest.At(')') {
          RedirsGood(c, rest.tail, good);
        }
    } else {
      ArgsGood(Exec([]), [], t, good);
    }
  }

  lemma {:induction false} PipelineGood(t: Tokens, good: string -> bool)
    requires GoodTokens(t, good)
    ensures GoodParse(Pipeline(t), good)
    decreases t.Len(), 1
  {
    AtomGood(t, good);
    match Atom(t)
    case Failed =>
    case Parsed(c, rest) =>
      if rest.At('|') {
        PipelineGood(rest.tail, good);
      }
  }

  lemma {:induction false} TailGood(c: Cmd<string>, t: Tokens, n: nat, good: string -> bool)
    requires t.Len() <= n && Fits(c) && AllWords(c, good) && GoodTokens(t, good)
    ensures GoodParse(LineTail(c, t, n), good)
    decreases n, 1, t.Len()
  {
    if t.At('&') {
      TailGood(Back(c), t.tail, n, good);
    } else if t.At(';') {
      LineGood(t.tail, good);
    }
  }

  /** Every tree the parser makes has at most nine arguments to a command, and
      only words of its line. */
  lemma {:induction false} LineGood(t: Tokens, good: string -> bool)
    requires GoodTokens(t, good)
    ensures GoodParse(Line(t), good)
    decreases t.Len(), 2
  {
    PipelineGood(t, good);
    match Pipeline(t)
    case Failed =>
    case Parsed(c, rest) => TailGood(c, rest, t.Len(), good);
  }
}
