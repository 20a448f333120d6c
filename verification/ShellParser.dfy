/** The scanner and recursive-descent parser of sh.c, loop by loop, against the grammar. */
module ShellParser {
  import opened Shell

  /** gettoken: the token at *ps and the position it leaves. */
  method GetToken(s: string, ps: nat) returns (t: Token)
    requires ps <= |s|
    ensures t == NextToken(s, ps)
  {
    var p := Spaces(s, ps);
    var q, kind := p, At(s, p);
    if p == |s| || s[p] == NUL {
      kind := NUL;
    } else if s[p] in {'|', '(', ')', ';', '&', '<'} {
      p := p + 1;
    } else if s[p] == '>' {
      p := p + 1;
      if At(s, p) == '>' {
        kind := '+';
        p := p + 1;
      }
    } else {
      kind := 'a';
      ghost var start := p;
      while p < |s| && !Blank(s[p]) && !Symbol(s[p])
        invariant start <= p <= |s| && SkipWord(s, start) == SkipWord(s, p)
      {
        p := p + 1;
      }
    }
    var next := Spaces(s, p);
    return Token(kind, q, p, next);
  }

  /** The loop over blanks that gettoken and peek share. */
  method Spaces(s: string, ps: nat) returns (p: nat)
    requires ps <= |s|
    ensures p == SkipBlanks(s, ps)
  {
    p := ps;
    while p < |s| && Blank(s[p])
      invariant ps <= p <= |s| && SkipBlanks(s, ps) == SkipBlanks(s, p)
    {
      p := p + 1;
    }
  }

  /** peek: move *ps past blanks and look at the byte there. */
  method Peek(s: string, ps: nat, toks: set<char>) returns (found: bool, p: nat)
    requires Line(s) && ps <= |s| && NUL !in toks
    ensures p == SkipBlanks(s, ps) && found == PeekAt(s, ps, toks)
    ensures NextToken(s, p) == NextToken(s, ps)
  {
    p := Spaces(s, ps);
    found := At(s, p) in toks;
    SkipTwice(s, ps);
  }

  lemma SkipTwice(s: string, p: nat)
    requires p <= |s|
    ensures SkipBlanks(s, SkipBlanks(s, p)) == SkipBlanks(s, p)
    ensures NextToken(s, SkipBlanks(s, p)) == NextToken(s, p)
  {
  }

  method ParseRedirs(s: string, ps: nat) returns (r: Result<Redirs>)
    requires Line(s) && ps <= |s|
    ensures r == RedirsFrom(s, ps, [])
  {
    hide NextToken, SkipBlanks;
    var rs: seq<Redirection<Span>> := [];
    var p := ps;
    while true
      invariant p <= |s| && RedirsFrom(s, ps, []) == RedirsFrom(s, p, rs)
      decreases |s| - p
    {
      var more, at := Peek(s, p, {'<', '>'});
      if !more { return Ok(Redirs(rs, at)); }
      var op := GetToken(s, at);
      var file := GetToken(s, op.next);
      if file.kind != 'a' { return Err(MissingFile); }
      rs := rs + [Redirection(Span(file.q, file.eq), if op.kind == '<' then In else Out)];
      p := file.next;
    }
  }

  method ParseExec(s: string, ps: nat) returns (r: Result<Parsed>)
    requires Line(s) && ps <= |s|
    ensures r == ExecAt(s, ps)
    decreases |s| - ps, 1
  {
    hide NextToken, SkipBlanks, RedirsFrom, BlockAt;
    var block, start := Peek(s, ps, {'('});
    if block {
      r := ParseBlock(s, ps);
      return;
    }
    var first := ParseRedirs(s, ps);
    if first.Err? { return Err(first.error); }
    var args: seq<Span>, rs, p := [], first.value.list, first.value.next;
    while true
      invariant ps <= p <= |s| && ExecAt(s, ps) == ArgsFrom(s, p, args, rs)
      decreases |s| - p
    {
      var stop, at := Peek(s, p, {'|', ')', '&', ';'});
      if stop { return Ok(Parsed(Wrap(Exec(args), rs), at)); }
      var t := GetToken(s, at);
      if t.kind == NUL { return Ok(Parsed(Wrap(Exec(args), rs), t.next)); }
      if t.kind != 'a' { return Err(Syntax); }
      if |args| + 1 >= MAXARGS { return Err(TooManyArgs); }
      var more := ParseRedirs(s, t.next);
      if more.Err? { return Err(more.error); }
      args, rs, p := args + [Span(t.q, t.eq)], rs + more.value.list, more.value.next;
    }
  }

  method ParseBlock(s: string, ps: nat) returns (r: Result<Parsed>)
    requires Line(s) && ps <= |s|
    ensures r == BlockAt(s, ps)
    decreases |s| - ps, 0
  {
    hide NextToken, SkipBlanks, RedirsFrom, LineAt;
    var open, at := Peek(s, ps, {'('});
    if !open { return Err(NoBlock); }
    var t := GetToken(s, at);
    Opened(s, ps);
    var body := ParseLine(s, t.next);
    if body.Err? { return body; }
    var close, at2 := Peek(s, body.value.next, {')'});
    if !close { return Err(MissingParen); }
    t := GetToken(s, at2);
    var rs := ParseRedirs(s, t.next);
    if rs.Err? { return Err(rs.error); }
    return Ok(Parsed(Wrap(body.value.cmd, rs.value.list), rs.value.next));
  }

  /** A token that peek saw takes at least one byte. */
  lemma Opened(s: string, p: nat)
    requires p <= |s| && At(s, SkipBlanks(s, p)) in {'(', ')', '|', '&', ';', '<', '>'}
    ensures NextToken(s, p).next > p
  {
  }

  method ParsePipe(s: string, ps: nat) returns (r: Result<Parsed>)
    requires Line(s) && ps <= |s|
    ensures r == PipeAt(s, ps)
    decreases |s| - ps, 2
  {
    hide NextToken, SkipBlanks, ExecAt;
    var left := ParseExec(s, ps);
    if left.Err? { return left; }
    var more, at := Peek(s, left.value.next, {'|'});
    if !more { return Ok(Parsed(left.value.cmd, at)); }
    var t := GetToken(s, at);
    Opened(s, left.value.next);
    var right := ParsePipe(s, t.next);
    if right.Err? { return right; }
    return Ok(Parsed(Pipe(left.value.cmd, right.value.cmd), right.value.next));
  }

  method ParseLine(s: string, ps: nat) returns (r: Result<Parsed>)
    requires Line(s) && ps <= |s|
    ensures r == LineAt(s, ps)
    decreases |s| - ps, 3
  {
    hide NextToken, SkipBlanks, PipeAt;
    var first := ParsePipe(s, ps);
    if first.Err? { return first; }
    var cmd, p := first.value.cmd, first.value.next;
    ghost var b := BacksFrom(s, p, cmd);
    while true
      invariant ps <= p <= |s| && b == BacksFrom(s, p, cmd)
      decreases |s| - p
    {
      var more, at := Peek(s, p, {'&'});
      if !more {
        p := at;
        break;
      }
      Opened(s, p);
      var t := GetToken(s, at);
      cmd, p := Back(cmd), t.next;
    }
    assert b == Parsed(cmd, p);
    var more, at := Peek(s, p, {';'});
    if !more { return Ok(Parsed(cmd, at)); }
    var t := GetToken(s, at);
    Opened(s, p);
    var rest := ParseLine(s, t.next);
    if rest.Err? { return rest; }
    return Ok(Parsed(List(cmd, rest.value.cmd), rest.value.next));
  }

  /** parsecmd before nulterminate: the whole line must be one command. */
  method ParseCmd(s: string) returns (r: Result<Cmd<Span>>)
    requires Line(s)
    ensures r == Shell.ParseLine(s)
  {
    hide LineAt;
    var line := ParseLine(s, 0);
    if line.Err? { return Err(line.error); }
    var found, at := Peek(s, line.value.next, {});
    if at != |s| { return Err(Leftovers); }
    return Ok(line.value.cmd);
  }
}
