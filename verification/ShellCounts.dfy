/** Parsing loses no token of a line and adds none (sh.c: parsecmd). */
module ShellCounts {
  import opened Shell
  import opened ShellPrint
  import opened ShellTokens

  function Tally(ts: seq<Tok>): multiset<Tok> {
    if ts == [] then multiset{} else Once(ts[0]) + Tally(ts[1..])
  }

  /** A token, unless it is a parenthesis. */
  function Once(t: Tok): multiset<Tok> {
    if t.kind == '(' || t.kind == ')' then multiset{} else multiset{t}
  }

  function WordToks(ws: seq<string>): multiset<Tok> {
    if ws == [] then multiset{} else WordToks(ws[..|ws| - 1]) + multiset{Tok('a', ws[|ws| - 1])}
  }

  function RedirToks(rs: seq<Redirection<string>>): multiset<Tok> {
    if rs == [] then multiset{}
    else RedirToks(rs[..|rs| - 1]) + multiset{Tok(Op(rs[|rs| - 1].mode), ""), Tok('a', rs[|rs| - 1].file)}
  }

  /** The tokens a command is made of, parentheses aside: its words, and one symbol for each of its operators. */
  function CmdToks(c: Cmd<string>): multiset<Tok> {
    match c
    case Exec(ws) => WordToks(ws)
    case Redir(d, file, mode) => CmdToks(d) + multiset{Tok(Op(mode), ""), Tok('a', file)}
    case Pipe(l, r) => CmdToks(l) + multiset{Tok('|', "")} + CmdToks(r)
    case List(l, r) => CmdToks(l) + multiset{Tok(';', "")} + CmdToks(r)
    case Back(d) => CmdToks(d) + multiset{Tok('&', "")}
  }

  lemma TallyNext(s: string, p: nat)
    requires p <= |s|
    ensures var t := NextToken(s, p);
            Tally(Tokens(s, p)) == if t.kind == NUL then multiset{} else Once(TokOf(s, t)) + Tally(Tokens(s, t.next))
  {
    hide NextToken;
    var t := NextToken(s, p);
    if t.kind != NUL { assert Tokens(s, p)[1..] == Tokens(s, t.next); }
  }

  lemma TallySkip(s: string, p: nat)
    requires p <= |s|
    ensures Tally(Tokens(s, SkipBlanks(s, p))) == Tally(Tokens(s, p))
  {
    hide Tokens, NextToken, SkipBlanks;
    TokensSkip(s, p);
  }

  /** The symbol peek saw is the next token. */
  lemma SymbolNext(s: string, p: nat, c: char)
    requires p <= |s| && c in {'(', ')', '|', '&', ';'} && PeekAt(s, p, {c})
    ensures NextToken(s, p).next > p && NextToken(s, p).kind == c && TokOf(s, NextToken(s, p)) == Tok(c, "")
  {
    hide SkipWord;
  }

  lemma RedirNext(s: string, p: nat)
    requires Line(s) && p <= |s| && PeekAt(s, p, {'<', '>'})
    ensures var t := NextToken(s, p);
            t.kind != NUL && TokOf(s, t) == Tok(Op(if t.kind == '<' then In else Out), "") && t.next > p
  {
    hide SkipWord;
  }

  lemma WordNext(s: string, t: Token)
    requires t.q <= t.eq <= |s| && t.kind == 'a'
    ensures TokOf(s, t) == Tok('a', Slice(s, Span(t.q, t.eq))) && Once(TokOf(s, t)) == multiset{TokOf(s, t)}
  {
  }

  lemma RedirToksMore(a: seq<Redirection<string>>, b: seq<Redirection<string>>)
    ensures RedirToks(a + b) == RedirToks(a) + RedirToks(b)
    decreases |b|
  {
    if b == [] {
      assert a + b == a;
    } else {
      assert (a + b)[..|a + b| - 1] == a + b[..|b| - 1];
      RedirToksMore(a, b[..|b| - 1]);
    }
  }

  lemma TextRedirsAdd(s: string, a: seq<Redirection<Span>>, b: seq<Redirection<Span>>)
    ensures TextRedirs(s, a + b) == TextRedirs(s, a) + TextRedirs(s, b)
  {
  }

  /** One more redirection. */
  lemma RedirSnoc(s: string, a: seq<Redirection<Span>>, r: Redirection<Span>)
    ensures RedirToks(TextRedirs(s, a + [r])) == RedirToks(TextRedirs(s, a)) + multiset{Tok(Op(r.mode), ""), Tok('a', Slice(s, r.file))}
  {
    var t := TextRedirs(s, a + [r]);
    assert t[..|t| - 1] == TextRedirs(s, a);
  }

  lemma {:induction false} RedirsKeep(s: string, p: nat, a: seq<Redirection<Span>>)
    requires Line(s) && p <= |s|
    ensures RedirsFrom(s, p, a).Ok? ==>
              var r := RedirsFrom(s, p, a).value;
              RedirToks(TextRedirs(s, a)) + Tally(Tokens(s, p)) == RedirToks(TextRedirs(s, r.list)) + Tally(Tokens(s, r.next))
    decreases |s| - p
  {
    hide NextToken, PeekAt, Tokens, Slice, TokOf, Tally, Once, RedirToks, TextRedirs;
    if PeekAt(s, p, {'<', '>'}) {
      var op := NextToken(s, p);
      var file := NextToken(s, op.next);
      RedirNext(s, p);
      if file.kind == 'a' {
        var r := Redirection(Span(file.q, file.eq), if op.kind == '<' then In else Out);
        TallyNext(s, p);
        TallyNext(s, op.next);
        WordNext(s, file);
        SymbolOnce(Op(r.mode));
        RedirSnoc(s, a, r);
        RedirsKeep(s, file.next, a + [r]);
      }
    } else {
      TallySkip(s, p);
    }
  }

  lemma SymbolOnce(c: char)
    ensures c != '(' && c != ')' ==> Once(Tok(c, "")) == multiset{Tok(c, "")}
    ensures c == '(' || c == ')' ==> Once(Tok(c, "")) == multiset{}
    ensures Op(In) == '<' && Op(Out) == '>'
  {
  }

  lemma {:induction false} WrapToks(c: Cmd<string>, rs: seq<Redirection<string>>)
    ensures CmdToks(Wrap(c, rs)) == CmdToks(c) + RedirToks(rs)
  {
    if rs != [] { WrapToks(c, rs[..|rs| - 1]); }
  }

  lemma WrapTextToks(s: string, c: Cmd<Span>, rs: seq<Redirection<Span>>)
    ensures CmdToks(Text(s, Wrap(c, rs))) == CmdToks(Text(s, c)) + RedirToks(TextRedirs(s, rs))
  {
    hide Text, Wrap, CmdToks, RedirToks, TextRedirs;
    TextWrap(s, c, rs);
    WrapToks(Text(s, c), TextRedirs(s, rs));
  }

  lemma WordSnoc(s: string, ws: seq<Span>, w: Span)
    ensures CmdToks(Text(s, Exec(ws + [w]))) == CmdToks(Text(s, Exec(ws))) + multiset{Tok('a', Slice(s, w))}
  {
    var t := Slices(s, ws + [w]);
    assert t[..|t| - 1] == Slices(s, ws);
  }

  /** Words so far, redirections so far and what is still to be read make up the same tokens. */
  lemma {:induction false} ArgsKeep(s: string, p: nat, ws: seq<Span>, a: seq<Redirection<Span>>)
    requires Line(s) && p <= |s|
    ensures ArgsFrom(s, p, ws, a).Ok? ==>
              var r := ArgsFrom(s, p, ws, a).value;
              CmdToks(Text(s, Exec(ws))) + RedirToks(TextRedirs(s, a)) + Tally(Tokens(s, p)) ==
              CmdToks(Text(s, r.cmd)) + Tally(Tokens(s, r.next))
    decreases |s| - p
  {
    hide NextToken, PeekAt, Tokens, Slice, TokOf, Tally, Once, RedirToks, TextRedirs, CmdToks, Text, RedirsFrom, Wrap;
    WrapTextToks(s, Exec(ws), a);
    TallySkip(s, p);
    if !PeekAt(s, p, {'|', ')', '&', ';'}) {
      var t := NextToken(s, p);
      TallyNext(s, p);
      if t.kind == NUL {
        NoTokens(s, p);
      } else if t.kind == 'a' && |ws| + 1 < MAXARGS {
        var more := RedirsFrom(s, t.next, []);
        if more.Ok? {
          WordNext(s, t);
          WordSnoc(s, ws, Span(t.q, t.eq));
          RedirsKeep(s, t.next, []);
          NoRedirToks(s);
          TextRedirsAdd(s, a, more.value.list);
          RedirToksMore(TextRedirs(s, a), TextRedirs(s, more.value.list));
          ArgsKeep(s, more.value.next, ws + [Span(t.q, t.eq)], a + more.value.list);
          Regroup(CmdToks(Text(s, Exec(ws))), RedirToks(TextRedirs(s, a)), multiset{Tok('a', Slice(s, Span(t.q, t.eq)))},
                  RedirToks(TextRedirs(s, more.value.list)), Tally(Tokens(s, t.next)), Tally(Tokens(s, more.value.next)));
        }
      }
    }
  }

  lemma Regroup(e: multiset<Tok>, a: multiset<Tok>, w: multiset<Tok>, m: multiset<Tok>, t: multiset<Tok>, u: multiset<Tok>)
    requires multiset{} + t == m + u
    ensures e + a + (w + t) == (e + w) + (a + m) + u
  {
    assert t == multiset{} + t;
  }

  lemma Strip(m: multiset<Tok>, t: multiset<Tok>, u: multiset<Tok>, r: multiset<Tok>)
    requires multiset{} + t == m + u && multiset{} + m + u == r
    ensures t == r
  {
    assert t == multiset{} + t && multiset{} + m == m;
  }

  lemma NoRedirToks(s: string)
    ensures RedirToks(TextRedirs(s, [])) == multiset{}
  {
  }

  lemma NoWordToks(s: string)
    ensures CmdToks(Text(s, Exec([]))) == multiset{}
  {
  }

  lemma NoTokens(s: string, p: nat)
    requires p <= |s| && NextToken(s, p).kind == NUL
    ensures Tally(Tokens(s, p)) == multiset{} == Tally(Tokens(s, NextToken(s, p).next))
  {
    var n := NextToken(s, p).next;
    assert NextToken(s, n).kind == NUL;
  }

  lemma {:induction false} ExecKeep(s: string, p: nat)
    requires Line(s) && p <= |s|
    ensures ExecAt(s, p).Ok? ==>
              Tally(Tokens(s, p)) == CmdToks(Text(s, ExecAt(s, p).value.cmd)) + Tally(Tokens(s, ExecAt(s, p).value.next))
    decreases |s| - p, 1
  {
    hide NextToken, PeekAt, Tokens, Tally, RedirToks, TextRedirs, CmdToks, Text, RedirsFrom, ArgsFrom, BlockAt;
    if PeekAt(s, p, {'('}) {
      BlockKeep(s, p);
    } else {
      RedirsKeep(s, p, []);
      NoRedirToks(s);
      NoWordToks(s);
      var r := RedirsFrom(s, p, []);
      if r.Ok? {
        ArgsKeep(s, r.value.next, [], r.value.list);
        if ExecAt(s, p).Ok? {
          var e := ExecAt(s, p).value;
          Strip(RedirToks(TextRedirs(s, r.value.list)), Tally(Tokens(s, p)), Tally(Tokens(s, r.value.next)), CmdToks(Text(s, e.cmd)) + Tally(Tokens(s, e.next)));
        }
      }
    }
  }

  lemma {:induction false} BlockKeep(s: string, p: nat)
    requires Line(s) && p <= |s| && PeekAt(s, p, {'('})
    ensures BlockAt(s, p).Ok? ==>
              Tally(Tokens(s, p)) == CmdToks(Text(s, BlockAt(s, p).value.cmd)) + Tally(Tokens(s, BlockAt(s, p).value.next))
    decreases |s| - p, 0
  {
    hide NextToken, PeekAt, Tokens, Tally, Once, TokOf, RedirToks, TextRedirs, CmdToks, Text, RedirsFrom, LineAt, Wrap;
    SymbolNext(s, p, '(');
    SymbolOnce('(');
    SymbolOnce(')');
    TallyNext(s, p);
    var n := NextToken(s, p).next;
    LineKeep(s, n);
    var r := LineAt(s, n);
    if r.Ok? && PeekAt(s, r.value.next, {')'}) {
      SymbolNext(s, r.value.next, ')');
      TallyNext(s, r.value.next);
      var k := NextToken(s, r.value.next).next;
      RedirsKeep(s, k, []);
      NoRedirToks(s);
      var a := RedirsFrom(s, k, []);
      if a.Ok? { WrapTextToks(s, r.value.cmd, a.value.list); }
    }
  }

  lemma BackToks(s: string, c: Cmd<Span>)
    ensures CmdToks(Text(s, Back(c))) == CmdToks(Text(s, c)) + multiset{Tok('&', "")}
  {
  }

  lemma PipeToks(s: string, c: Cmd<Span>, d: Cmd<Span>)
    ensures CmdToks(Text(s, Pipe(c, d))) == CmdToks(Text(s, c)) + multiset{Tok('|', "")} + CmdToks(Text(s, d))
  {
  }

  lemma ListToks(s: string, c: Cmd<Span>, d: Cmd<Span>)
    ensures CmdToks(Text(s, List(c, d))) == CmdToks(Text(s, c)) + multiset{Tok(';', "")} + CmdToks(Text(s, d))
  {
  }

  lemma Assoc(a: multiset<Tok>, b: multiset<Tok>, c: multiset<Tok>)
    ensures a + b + c == a + (b + c)
  {
  }

  lemma Assoc4(a: multiset<Tok>, b: multiset<Tok>, c: multiset<Tok>, d: multiset<Tok>)
    ensures a + b + c + d == a + (b + (c + d))
  {
  }

  lemma {:induction false} PipeKeep(s: string, p: nat)
    requires Line(s) && p <= |s|
    ensures PipeAt(s, p).Ok? ==>
              Tally(Tokens(s, p)) == CmdToks(Text(s, PipeAt(s, p).value.cmd)) + Tally(Tokens(s, PipeAt(s, p).value.next))
    decreases |s| - p, 2
  {
    hide NextToken, PeekAt, Tokens, Tally, Once, TokOf, ExecAt, Text, CmdToks, SkipBlanks;
    ExecKeep(s, p);
    var r := ExecAt(s, p);
    if r.Ok? {
      TallySkip(s, r.value.next);
      if PeekAt(s, r.value.next, {'|'}) {
        SymbolNext(s, r.value.next, '|');
        SymbolOnce('|');
        TallyNext(s, r.value.next);
        var n := NextToken(s, r.value.next).next;
        PipeKeep(s, n);
        var v := PipeAt(s, n);
        if v.Ok? {
          PipeToks(s, r.value.cmd, v.value.cmd);
          Assoc4(CmdToks(Text(s, r.value.cmd)), multiset{Tok('|', "")}, CmdToks(Text(s, v.value.cmd)), Tally(Tokens(s, v.value.next)));
        }
      }
    }
  }

  lemma {:induction false} BacksKeep(s: string, p: nat, c: Cmd<Span>)
    requires Line(s) && p <= |s|
    ensures CmdToks(Text(s, c)) + Tally(Tokens(s, p)) == CmdToks(Text(s, BacksFrom(s, p, c).cmd)) + Tally(Tokens(s, BacksFrom(s, p, c).next))
    decreases |s| - p
  {
    hide NextToken, PeekAt, Tokens, Tally, Once, TokOf, Text, CmdToks, SkipBlanks;
    if PeekAt(s, p, {'&'}) {
      SymbolNext(s, p, '&');
      SymbolOnce('&');
      TallyNext(s, p);
      BackToks(s, c);
      BacksKeep(s, NextToken(s, p).next, Back(c));
      Assoc(CmdToks(Text(s, c)), multiset{Tok('&', "")}, Tally(Tokens(s, NextToken(s, p).next)));
    } else {
      TallySkip(s, p);
    }
  }

  lemma {:induction false} LineKeep(s: string, p: nat)
    requires Line(s) && p <= |s|
    ensures LineAt(s, p).Ok? ==>
              Tally(Tokens(s, p)) == CmdToks(Text(s, LineAt(s, p).value.cmd)) + Tally(Tokens(s, LineAt(s, p).value.next))
    decreases |s| - p, 3
  {
    hide NextToken, PeekAt, Tokens, Tally, Once, TokOf, PipeAt, BacksFrom, Text, CmdToks, SkipBlanks;
    PipeKeep(s, p);
    var r := PipeAt(s, p);
    if r.Ok? {
      BacksKeep(s, r.value.next, r.value.cmd);
      var b := BacksFrom(s, r.value.next, r.value.cmd);
      TallySkip(s, b.next);
      if PeekAt(s, b.next, {';'}) {
        SymbolNext(s, b.next, ';');
        SymbolOnce(';');
        TallyNext(s, b.next);
        var n := NextToken(s, b.next).next;
        LineKeep(s, n);
        var v := LineAt(s, n);
        if v.Ok? {
          ListToks(s, b.cmd, v.value.cmd);
          Assoc4(CmdToks(Text(s, b.cmd)), multiset{Tok(';', "")}, CmdToks(Text(s, v.value.cmd)), Tally(Tokens(s, v.value.next)));
        }
      }
    }
  }

  /** Every word, redirection and operator of a line that parses is in its command, as often as in the line, and nothing else is. */
  lemma TokensConserved(s: string)
    requires Line(s) && ParseLine(s).Ok?
    ensures Tally(Tokens(s, 0)) == CmdToks(Text(s, ParseLine(s).value))
  {
    hide LineAt, Tally, Tokens, CmdToks, Text;
    LineKeep(s, 0);
    var n := LineAt(s, 0).value.next;
    EndTally(s, n);
  }

  lemma EndTally(s: string, p: nat)
    requires Line(s) && p <= |s|
    ensures SkipBlanks(s, p) == |s| ==> Tally(Tokens(s, p)) == multiset{}
  {
    TokensEnd(s, p);
  }
}
