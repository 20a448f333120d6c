/** The shell's grammar (sh.c) as functions over a line and a position, with the tree of spans they build. */
module Shell {

  const MAXARGS := 10
  const NUL := 0 as char

  predicate Blank(c: char) { c in {' ', '\t', '\r', '\n', 11 as char} }

  predicate Symbol(c: char) { c in {'<', '|', '>', '&', ';', '(', ')'} }

  /** The characters by their codes: tab, line feed, vertical tab, carriage return, space; & ( ) ; < > |. */
  lemma CharCodes(c: char)
    ensures Blank(c) <==> c as int in {9, 10, 11, 13, 32}
    ensures Symbol(c) <==> c as int in {38, 40, 41, 59, 60, 62, 124}
  {
  }

  predicate WordChar(c: char) { c != NUL && !Blank(c) && !Symbol(c) }

  /** A line as the shell holds it: no NUL before its end. */
  predicate Line(s: string) { forall i :: 0 <= i < |s| ==> s[i] != NUL }

  /** The byte at p, NUL at the end. */
  function At(s: string, p: nat): char { if p < |s| then s[p] else NUL }

  // ---------------------------------------------------------------- tokens

  function SkipBlanks(s: string, p: nat): (r: nat)
    requires p <= |s|
    ensures p <= r <= |s| && !Blank(At(s, r)) && forall i :: p <= i < r ==> Blank(s[i])
    decreases |s| - p
  {
    if p < |s| && Blank(s[p]) then SkipBlanks(s, p + 1) else p
  }

  function SkipWord(s: string, p: nat): (r: nat)
    requires p <= |s|
    ensures p <= r <= |s| && forall i :: p <= i < r ==> !Blank(s[i]) && !Symbol(s[i])
    ensures r < |s| ==> Blank(s[r]) || Symbol(s[r])
    decreases |s| - p
  {
    if p < |s| && !Blank(s[p]) && !Symbol(s[p]) then SkipWord(s, p + 1) else p
  }

  /** kind is the symbol, '+' for >>, 'a' for a word, NUL at the end; the token is s[q..eq]. */
  datatype Token = Token(kind: char, q: nat, eq: nat, next: nat)

  function NextToken(s: string, p: nat): (t: Token)
    requires p <= |s|
    ensures p <= t.q <= t.eq <= t.next <= |s|
    ensures t.kind != NUL ==> t.q < t.eq
  {
    var q := SkipBlanks(s, p);
    var c := At(s, q);
    var (kind, eq) :=
      if q == |s| || c == NUL then (NUL, q)
      else if c == '>' then (if At(s, q + 1) == '>' then ('+', q + 2) else ('>', q + 1))
      else if Symbol(c) then (c, q + 1)
      else ('a', SkipWord(s, q));
    Token(kind, q, eq, SkipBlanks(s, eq))
  }

  /** The next byte after blanks is one of toks. */
  predicate PeekAt(s: string, p: nat, toks: set<char>)
    requires p <= |s|
  {
    At(s, SkipBlanks(s, p)) in toks
  }

  // ---------------------------------------------------------------- the tree

  datatype Span = Span(q: nat, eq: nat)

  /** Open for reading on 0, or for writing on 1. */
  datatype Mode = In | Out

  datatype Redirection<W> = Redirection(file: W, mode: Mode)

  /** A command over words of type W: spans of the line, or strings. */
  datatype Cmd<W> =
    | Exec(args: seq<W>)
    | Redir(cmd: Cmd<W>, file: W, mode: Mode)
    | Pipe(left: Cmd<W>, right: Cmd<W>)
    | List(left: Cmd<W>, right: Cmd<W>)
    | Back(cmd: Cmd<W>)

  /** redircmd applied once per redirection, the last outermost. */
  function Wrap<W>(c: Cmd<W>, rs: seq<Redirection<W>>): Cmd<W> {
    if rs == [] then c else Redir(Wrap(c, rs[..|rs| - 1]), rs[|rs| - 1].file, rs[|rs| - 1].mode)
  }

  datatype Error = MissingFile | NoBlock | MissingParen | Syntax | TooManyArgs | Leftovers

  datatype Result<T> = Ok(value: T) | Err(error: Error)

  datatype Parsed = Parsed(cmd: Cmd<Span>, next: nat)

  datatype Redirs = Redirs(list: seq<Redirection<Span>>, next: nat)

  // ---------------------------------------------------------------- the grammar

  /** parseredirs from p on, after the redirections rs. */
  function RedirsFrom(s: string, p: nat, rs: seq<Redirection<Span>>): (r: Result<Redirs>)
    requires p <= |s|
    ensures r.Ok? ==> p <= r.value.next <= |s|
    decreases |s| - p
  {
    if !PeekAt(s, p, {'<', '>'}) then Ok(Redirs(rs, SkipBlanks(s, p)))
    else
      var op := NextToken(s, p);
      var file := NextToken(s, op.next);
      if file.kind != 'a' then Err(MissingFile)
      else RedirsFrom(s, file.next, rs + [Redirection(Span(file.q, file.eq), if op.kind == '<' then In else Out)])
  }

  /** parseexec's loop from p on, after the words args and the redirections rs. */
  function ArgsFrom(s: string, p: nat, args: seq<Span>, rs: seq<Redirection<Span>>): (r: Result<Parsed>)
    requires p <= |s|
    ensures r.Ok? ==> p <= r.value.next <= |s|
    decreases |s| - p
  {
    if PeekAt(s, p, {'|', ')', '&', ';'}) then Ok(Parsed(Wrap(Exec(args), rs), SkipBlanks(s, p)))
    else
      var t := NextToken(s, p);
      if t.kind == NUL then Ok(Parsed(Wrap(Exec(args), rs), t.next))
      else if t.kind != 'a' then Err(Syntax)
      else if |args| + 1 >= MAXARGS then Err(TooManyArgs)
      else
        var more := RedirsFrom(s, t.next, []);
        if more.Err? then Err(more.error)
        else ArgsFrom(s, more.value.next, args + [Span(t.q, t.eq)], rs + more.value.list)
  }

  function ExecAt(s: string, p: nat): (r: Result<Parsed>)
    requires p <= |s|
    ensures r.Ok? ==> p <= r.value.next <= |s|
    decreases |s| - p, 1
  {
    if PeekAt(s, p, {'('}) then BlockAt(s, p)
    else
      var rs := RedirsFrom(s, p, []);
      if rs.Err? then Err(rs.error) else ArgsFrom(s, rs.value.next, [], rs.value.list)
  }

  function BlockAt(s: string, p: nat): (r: Result<Parsed>)
    requires p <= |s|
    ensures r.Ok? ==> p <= r.value.next <= |s|
    decreases |s| - p, 0
  {
    if !PeekAt(s, p, {'('}) then Err(NoBlock)
    else
      var body := LineAt(s, NextToken(s, p).next);
      if body.Err? then body
      else if !PeekAt(s, body.value.next, {')'}) then Err(MissingParen)
      else
        var rs := RedirsFrom(s, NextToken(s, body.value.next).next, []);
        if rs.Err? then Err(rs.error) else Ok(Parsed(Wrap(body.value.cmd, rs.value.list), rs.value.next))
  }

  function PipeAt(s: string, p: nat): (r: Result<Parsed>)
    requires p <= |s|
    ensures r.Ok? ==> p <= r.value.next <= |s|
    decreases |s| - p, 2
  {
    var left := ExecAt(s, p);
    if left.Err? then left
    else if !PeekAt(s, left.value.next, {'|'}) then Ok(Parsed(left.value.cmd, SkipBlanks(s, left.value.next)))
    else
      var right := PipeAt(s, NextToken(s, left.value.next).next);
      if right.Err? then right else Ok(Parsed(Pipe(left.value.cmd, right.value.cmd), right.value.next))
  }

  /** parseline's loop: one Back per &. */
  function BacksFrom(s: string, p: nat, c: Cmd<Span>): (r: Parsed)
    requires p <= |s|
    ensures p <= r.next <= |s|
    decreases |s| - p
  {
    if PeekAt(s, p, {'&'}) then BacksFrom(s, NextToken(s, p).next, Back(c)) else Parsed(c, SkipBlanks(s, p))
  }

  function LineAt(s: string, p: nat): (r: Result<Parsed>)
    requires p <= |s|
    ensures r.Ok? ==> p <= r.value.next <= |s|
    decreases |s| - p, 3
  {
    var first := PipeAt(s, p);
    if first.Err? then first
    else
      var b := BacksFrom(s, first.value.next, first.value.cmd);
      if !PeekAt(s, b.next, {';'}) then Ok(Parsed(b.cmd, SkipBlanks(s, b.next)))
      else
        var rest := LineAt(s, NextToken(s, b.next).next);
        if rest.Err? then rest else Ok(Parsed(List(b.cmd, rest.value.cmd), rest.value.next))
  }

  function ParseLine(s: string): Result<Cmd<Span>> {
    var r := LineAt(s, 0);
    if r.Err? then Err(r.error)
    else if SkipBlanks(s, r.value.next) != |s| then Err(Leftovers)
    else Ok(r.value.cmd)
  }
}
