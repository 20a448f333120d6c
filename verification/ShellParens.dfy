/** Which commands need parentheses (sh.c: parseline, parsepipe, parseexec). */
module ShellParens {
  import opened Shell
  import opened ShellPrint

  /** No part of c is looser than the place it stands in. */
  predicate Flat<W>(c: Cmd<W>, level: nat) {
    && Level(c) >= level
    && match c
       case Exec(_) => true
       case Redir(d, _, _) => Flat(d, 3)
       case Pipe(l, r) => Flat(l, 3) && Flat(r, 2)
       case Back(d) => Flat(d, 1)
       case List(l, r) => Flat(l, 1) && Flat(r, 0)
  }

  lemma {:induction false} FlatText(s: string, t: Cmd<Span>, level: nat)
    ensures Flat(Text(s, t), level) <==> Flat(t, level)
    decreases t
  {
    match t
    case Exec(_) =>
    case Redir(d, _, _) => FlatText(s, d, 3);
    case Pipe(l, r) => FlatText(s, l, 3); FlatText(s, r, 2);
    case Back(d) => FlatText(s, d, 1);
    case List(l, r) => FlatText(s, l, 1); FlatText(s, r, 0);
  }

  // ---------------------------------------------------------------- printing

  lemma {:induction false} JoinWithout(ws: seq<string>)
    requires forall k :: 0 <= k < |ws| ==> Word(ws[k])
    ensures '(' !in Join(ws)
  {
    if ws != [] {
      assert Word(ws[0]);
      JoinWithout(ws[1..]);
    }
  }

  /** A command is printed with a parenthesis exactly if some part of it is too loose for its place. */
  lemma {:induction false} ShowParens(c: Cmd<string>, level: nat)
    requires Printable(c)
    ensures '(' in Show(c, level) <==> !Flat(c, level)
    decreases c, if Level(c) < level then 1 else 0
  {
    if Level(c) < level {
      assert ("(" + Show(c, 0) + ")")[0] == '(';
    } else {
      match c
      case Exec(ws) => JoinWithout(ws);
      case Redir(d, file, _) => ShowParens(d, 3);
      case Pipe(l, r) => ShowParens(l, 3); ShowParens(r, 2);
      case Back(d) => ShowParens(d, 1);
      case List(l, r) => ShowParens(l, 1); ShowParens(r, 0);
    }
  }

  // ---------------------------------------------------------------- parsing

  lemma {:induction false} WrapFlat(c: Cmd<Span>, rs: seq<Redirection<Span>>)
    requires Flat(c, 3)
    ensures Flat(Wrap(c, rs), 3)
  {
    if rs != [] { WrapFlat(c, rs[..|rs| - 1]); }
  }

  lemma {:induction false} ArgsFlat(s: string, p: nat, args: seq<Span>, rs: seq<Redirection<Span>>)
    requires p <= |s|
    ensures ArgsFrom(s, p, args, rs).Ok? ==> Flat(ArgsFrom(s, p, args, rs).value.cmd, 3)
    decreases |s| - p
  {
    hide RedirsFrom;
    WrapFlat(Exec(args), rs);
    if !PeekAt(s, p, {'|', ')', '&', ';'}) {
      var t := NextToken(s, p);
      if t.kind == 'a' && |args| + 1 < MAXARGS {
        var more := RedirsFrom(s, t.next, []);
        if more.Ok? { ArgsFlat(s, more.value.next, args + [Span(t.q, t.eq)], rs + more.value.list); }
      }
    }
  }

  lemma ExecFlat(s: string, p: nat)
    requires p <= |s| && '(' !in s
    ensures ExecAt(s, p).Ok? ==> Flat(ExecAt(s, p).value.cmd, 3)
  {
    hide RedirsFrom, ArgsFrom, Flat;
    var rs := RedirsFrom(s, p, []);
    if rs.Ok? { ArgsFlat(s, rs.value.next, [], rs.value.list); }
  }

  lemma {:induction false} PipeFlat(s: string, p: nat)
    requires p <= |s| && '(' !in s
    ensures PipeAt(s, p).Ok? ==> Flat(PipeAt(s, p).value.cmd, 2)
    decreases |s| - p
  {
    hide ExecAt;
    ExecFlat(s, p);
    var left := ExecAt(s, p);
    if left.Ok? && PeekAt(s, left.value.next, {'|'}) { PipeFlat(s, NextToken(s, left.value.next).next); }
  }

  lemma {:induction false} BacksFlat(s: string, p: nat, c: Cmd<Span>)
    requires p <= |s| && Flat(c, 1)
    ensures Flat(BacksFrom(s, p, c).cmd, 1)
    decreases |s| - p
  {
    if PeekAt(s, p, {'&'}) { BacksFlat(s, NextToken(s, p).next, Back(c)); }
  }

  lemma {:induction false} LineFlat(s: string, p: nat)
    requires p <= |s| && '(' !in s
    ensures LineAt(s, p).Ok? ==> Flat(LineAt(s, p).value.cmd, 0)
    decreases |s| - p
  {
    hide PipeAt, BacksFrom;
    PipeFlat(s, p);
    var first := PipeAt(s, p);
    if first.Ok? {
      BacksFlat(s, first.value.next, first.value.cmd);
      var b := BacksFrom(s, first.value.next, first.value.cmd);
      if PeekAt(s, b.next, {';'}) { LineFlat(s, NextToken(s, b.next).next); }
    }
  }

  /** A line without a parenthesis that parses to c. */
  predicate Bare(s: string, c: Cmd<string>) {
    Line(s) && '(' !in s && ParseLine(s).Ok? && Text(s, ParseLine(s).value) == c
  }

  /** Print uses parentheses exactly where no line without them means the same command. */
  lemma ParensNeeded(c: Cmd<string>)
    requires Printable(c)
    ensures '(' in Print(c) <==> !exists s :: Bare(s, c)
  {
    hide ParseLine, Flat;
    ShowParens(c, 0);
    RoundTrip(c);
    ShowLine(c, 0);
    assert '(' !in Print(c) ==> Bare(Print(c), c);
    forall s | Bare(s, c) ensures Flat(c, 0) { BareFlat(s, c); }
  }

  lemma BareFlat(s: string, c: Cmd<string>)
    requires Bare(s, c)
    ensures Flat(c, 0)
  {
    hide LineAt, Flat;
    LineFlat(s, 0);
    FlatText(s, ParseLine(s).value, 0);
  }
}
