/** What a line means depends only on its tokens (sh.c: gettoken, and the parser over it). */
module ShellTokens {
  import opened Shell
  import opened ShellPrint

  /** A token without its place: '<', '>', '|', '&', ';', a parenthesis, or 'a' and the word.  > and >> are one. */
  datatype Tok = Tok(kind: char, text: string)

  function TokOf(s: string, t: Token): Tok
    requires t.q <= t.eq <= |s|
  {
    Tok(if t.kind == '+' then '>' else t.kind, if t.kind == 'a' then s[t.q..t.eq] else "")
  }

  function Tokens(s: string, p: nat): seq<Tok>
    requires p <= |s|
    decreases |s| - p
  {
    var t := NextToken(s, p);
    if t.kind == NUL then [] else [TokOf(s, t)] + Tokens(s, t.next)
  }

  // ---------------------------------------------------------------- tokens of a line put together

  lemma NextSkip(s: string, p: nat)
    requires p <= |s|
    ensures SkipBlanks(s, SkipBlanks(s, p)) == SkipBlanks(s, p) && NextToken(s, SkipBlanks(s, p)) == NextToken(s, p)
  {
  }

  lemma {:induction false} TokensSkip(s: string, p: nat)
    requires p <= |s|
    ensures SkipBlanks(s, SkipBlanks(s, p)) == SkipBlanks(s, p) && Tokens(s, SkipBlanks(s, p)) == Tokens(s, p)
  {
    hide NextToken, SkipBlanks, TokOf;
    NextSkip(s, p);
  }

  lemma TokensNext(s: string, p: nat)
    requires p <= |s|
    ensures var t := NextToken(s, p); t.kind != NUL ==> Tokens(s, p) == [TokOf(s, t)] + Tokens(s, t.eq)
  {
    TokensSkip(s, NextToken(s, p).eq);
  }

  lemma TokensNone(s: string, p: nat)
    requires p <= |s| && NextToken(s, p).kind == NUL
    ensures Tokens(s, p) == []
  {
    hide NextToken;
  }

  /** No token reaches from x into y. */
  predicate Apart(x: string, y: string) {
    x == "" || y == "" ||
    (!(WordChar(x[|x| - 1]) && WordChar(y[0])) && !(x[|x| - 1] == '>' && y[0] == '>'))
  }

  lemma {:induction false} SkipBlanksIn(x: string, y: string, p: nat)
    requires p <= |x|
    ensures SkipBlanks(x + y, p) == if SkipBlanks(x, p) < |x| then SkipBlanks(x, p) else |x| + SkipBlanks(y, 0)
    decreases |x| - p
  {
    if p < |x| {
      if Blank(x[p]) { SkipBlanksIn(x, y, p + 1); }
    } else {
      SkipBlanksAfter(x, y, 0);
    }
  }

  lemma {:induction false} SkipBlanksAfter(x: string, y: string, k: nat)
    requires k <= |y|
    ensures SkipBlanks(x + y, |x| + k) == |x| + SkipBlanks(y, k)
    decreases |y| - k
  {
    if k < |y| && Blank(y[k]) { SkipBlanksAfter(x, y, k + 1); }
  }

  lemma {:induction false} SkipWordIn(x: string, y: string, q: nat)
    requires q <= |x| && Line(x) && Line(y) && (q < |x| ==> WordChar(x[q])) && Apart(x, y) && (q == |x| ==> x != "" && WordChar(x[q - 1]))
    ensures SkipWord(x + y, q) == SkipWord(x, q)
    decreases |x| - q
  {
    if q < |x| && (q + 1 == |x| || WordChar(x[q + 1])) { SkipWordIn(x, y, q + 1); }
  }

  lemma {:induction false} SkipWordAfter(x: string, y: string, k: nat)
    requires k <= |y|
    ensures SkipWord(x + y, |x| + k) == |x| + SkipWord(y, k)
    decreases |y| - k
  {
    if k < |y| && !Blank(y[k]) && !Symbol(y[k]) { SkipWordAfter(x, y, k + 1); }
  }

  lemma AtAfter(x: string, y: string, k: nat)
    ensures At(x + y, |x| + k) == At(y, k)
  {
  }

  lemma SliceAfter(x: string, y: string, i: nat, j: nat)
    requires i <= j <= |y|
    ensures (x + y)[|x| + i..|x| + j] == y[i..j]
  {
  }

  lemma NextAfter(x: string, y: string, k: nat)
    requires k <= |y|
    ensures var t, u := NextToken(x + y, |x| + k), NextToken(y, k);
            t.kind == u.kind && t.q == |x| + u.q && t.eq == |x| + u.eq && TokOf(x + y, t) == TokOf(y, u)
  {
    hide NextToken, SkipBlanks, SkipWord;
    NextAfterAt(x, y, k);
    var u := NextToken(y, k);
    SliceAfter(x, y, u.q, u.eq);
  }

  /** What stands at q decides what token begins there. */
  function KindAt(c: char, d: char): char {
    if c == NUL then NUL else if c == '>' then (if d == '>' then '+' else '>') else if Symbol(c) then c else 'a'
  }

  lemma NextIs(s: string, p: nat)
    requires p <= |s|
    ensures var t, q := NextToken(s, p), SkipBlanks(s, p);
            && t.q == q && t.kind == KindAt(At(s, q), At(s, q + 1))
            && t.eq == if t.kind == NUL then q else if t.kind == '+' then q + 2 else if t.kind == 'a' then SkipWord(s, q) else q + 1
  {
    hide SkipBlanks, SkipWord, Blank;
    var q := SkipBlanks(s, p);
    if q < |s| && Symbol(s[q]) { assert s[q] != 'a' && s[q] != '+'; }
  }

  lemma NextAfterAt(x: string, y: string, k: nat)
    requires k <= |y|
    ensures var t, u := NextToken(x + y, |x| + k), NextToken(y, k); t.kind == u.kind && t.q == |x| + u.q && t.eq == |x| + u.eq
  {
    hide *;
    SkipBlanksAfter(x, y, k);
    var q := SkipBlanks(y, k);
    SkipWordAfter(x, y, q);
    AtAfter(x, y, q);
    AtAfter(x, y, q + 1);
    assert |x| + q + 1 == |x| + (q + 1);
    NextIs(x + y, |x| + k);
    NextIs(y, k);
  }

  lemma {:induction false} TokensAfter(x: string, y: string, k: nat)
    requires k <= |y|
    ensures Tokens(x + y, |x| + k) == Tokens(y, k)
    decreases |y| - k
  {
    hide *;
    NextAfter(x, y, k);
    TokensNext(x + y, |x| + k);
    TokensNext(y, k);
    var u := NextToken(y, k);
    if u.kind != NUL {
      TokensAfter(x, y, u.eq);
    } else {
      TokensNone(y, k);
      TokensNone(x + y, |x| + k);
    }
  }

  lemma NextIn(x: string, y: string, p: nat)
    requires Line(x) && Line(y) && Apart(x, y) && p <= |x| && NextToken(x, p).kind != NUL
    ensures var t, u := NextToken(x + y, p), NextToken(x, p);
            t.kind == u.kind && t.q == u.q && t.eq == u.eq && TokOf(x + y, t) == TokOf(x, u)
  {
    hide SkipBlanks, SkipWord;
    SkipBlanksIn(x, y, p);
    var u := NextToken(x, p);
    if u.kind == 'a' { SkipWordIn(x, y, u.q); }
    assert (x + y)[u.q..u.eq] == x[u.q..u.eq];
  }

  lemma {:induction false} BlankRest(x: string, p: nat)
    requires Line(x) && p <= |x| && NextToken(x, p).kind == NUL
    ensures SkipBlanks(x, p) == |x| && Tokens(x, p) == []
  {
    hide SkipBlanks, SkipWord, Blank, Symbol;
  }

  /** Nothing but blanks in x from p on. */
  lemma {:induction false} TokensPast(x: string, y: string, p: nat)
    requires Line(x) && p <= |x| && NextToken(x, p).kind == NUL
    ensures Tokens(x, p) == [] && Tokens(x + y, p) == Tokens(y, 0)
  {
    hide NextToken, TokOf, Tokens, SkipBlanks, Line;
    BlankRest(x, p);
    SkipBlanksIn(x, y, p);
    SkipBlanksAfter(x, y, 0);
    TokensAfter(x, y, 0);
    TokensSkip(x + y, p);
    TokensSkip(x + y, |x|);
  }

  lemma {:induction false} TokensIn(x: string, y: string, p: nat)
    requires Line(x) && Line(y) && Apart(x, y) && p <= |x|
    ensures Tokens(x + y, p) == Tokens(x, p) + Tokens(y, 0)
    decreases |x| - p
  {
    hide *;
    var u := NextToken(x, p);
    if u.kind == NUL {
      TokensPast(x, y, p);
      assert [] + Tokens(y, 0) == Tokens(y, 0);
    } else {
      NextIn(x, y, p);
      TokensNext(x + y, p);
      TokensNext(x, p);
      TokensIn(x, y, u.eq);
      assert [TokOf(x, u)] + (Tokens(x, u.eq) + Tokens(y, 0)) == [TokOf(x, u)] + Tokens(x, u.eq) + Tokens(y, 0);
    }
  }

  /** The tokens of two pieces are those of the line they make, if no token reaches across. */
  lemma {:induction false} TokensJoin(x: string, y: string)
    requires Line(x) && Line(y) && Apart(x, y)
    ensures Tokens(x + y, 0) == Tokens(x, 0) + Tokens(y, 0)
  {
    hide Tokens, Apart, Line;
    TokensIn(x, y, 0);
  }

  /** Any blanks between two pieces do. */
  lemma {:induction false} BlanksDontMatter(x: string, blanks: string, y: string)
    requires Line(x) && Line(y) && blanks != "" && forall i :: 0 <= i < |blanks| ==> Blank(blanks[i])
    ensures Tokens(x + blanks + y, 0) == Tokens(x, 0) + Tokens(y, 0)
  {
    AllBlank(blanks, 0);
    assert Tokens(blanks, 0) == [];
    hide Tokens, SkipBlanks, NextToken;
    TokensJoin(blanks, y);
    TokensJoin(x, blanks + y);
    assert x + blanks + y == x + (blanks + y);
    assert [] + Tokens(y, 0) == Tokens(y, 0);
  }

  lemma {:induction false} AllBlank(s: string, p: nat)
    requires p <= |s| && forall i :: 0 <= i < |s| ==> Blank(s[i])
    ensures SkipBlanks(s, p) == |s|
    decreases |s| - p
  {
    if p < |s| { AllBlank(s, p + 1); }
  }

  /** >> is read as > is. */
  lemma {:induction false} AppendIsWrite(x: string, y: string)
    requires Line(x) && Line(y) && (x != "" ==> x[|x| - 1] != '>') && (y != "" ==> y[0] != '>')
    ensures Tokens(x + ">>" + y, 0) == Tokens(x + ">" + y, 0)
  {
    hide Tokens, NextToken;
    OneToken();
    TokensJoin(">>", y);
    TokensJoin(">", y);
    TokensJoin(x, ">>" + y);
    TokensJoin(x, ">" + y);
    assert x + ">>" + y == x + (">>" + y) && x + ">" + y == x + (">" + y);
  }

  lemma {:induction false} OneToken()
    ensures Tokens(">>", 0) == [Tok('>', "")] == Tokens(">", 0)
  {
    assert NextToken(">>", 0) == Token('+', 0, 2, 2) && NextToken(">>", 2).kind == NUL;
    assert NextToken(">", 0) == Token('>', 0, 1, 1) && NextToken(">", 1).kind == NUL;
  }

  // ---------------------------------------------------------------- the parser sees only tokens

  /** Two places with the same tokens from there on. */
  predicate Alike(s: string, p: nat, u: string, q: nat) {
    Line(s) && Line(u) && p <= |s| && q <= |u| && Tokens(s, p) == Tokens(u, q)
  }

  lemma AlikePeek(s: string, p: nat, u: string, q: nat, toks: set<char>)
    requires Alike(s, p, u, q) && forall c :: c in toks ==> Symbol(c)
    ensures PeekAt(s, p, toks) <==> PeekAt(u, q, toks)
    ensures Alike(s, SkipBlanks(s, p), u, SkipBlanks(u, q))
  {
    TokensSkip(s, p);
    TokensSkip(u, q);
    PeekIs(s, p, toks);
    PeekIs(u, q, toks);
  }

  lemma PeekIs(s: string, p: nat, toks: set<char>)
    requires Line(s) && p <= |s| && forall c :: c in toks ==> Symbol(c)
    ensures PeekAt(s, p, toks) <==> Tokens(s, p) != [] && Tokens(s, p)[0].kind in toks
  {
  }

  lemma AlikeNext(s: string, p: nat, u: string, q: nat)
    requires Alike(s, p, u, q)
    ensures var t, v := NextToken(s, p), NextToken(u, q);
            && (t.kind == NUL <==> v.kind == NUL) && (t.kind == 'a' <==> v.kind == 'a') && (t.kind == '<' <==> v.kind == '<')
            && Alike(s, t.next, u, v.next)
            && (t.kind == 'a' ==> Slice(s, Span(t.q, t.eq)) == Slice(u, Span(v.q, v.eq)))
  {
    var t, v := NextToken(s, p), NextToken(u, q);
    if t.kind == NUL {
      assert v.kind == NUL && t.next == |s| && v.next == |u|;
    } else {
      assert Tokens(s, p)[0] == TokOf(s, t) && Tokens(u, q)[0] == TokOf(u, v);
      assert Tokens(s, p)[1..] == Tokens(s, t.next) && Tokens(u, q)[1..] == Tokens(u, v.next);
    }
  }

  /** Parsing went the same way. */
  predicate SameParse(s: string, r: Result<Parsed>, u: string, v: Result<Parsed>) {
    if r.Err? then v == r
    else v.Ok? && Alike(s, r.value.next, u, v.value.next) && Text(s, r.value.cmd) == Text(u, v.value.cmd)
  }

  predicate SameRedirs(s: string, r: Result<Redirs>, u: string, v: Result<Redirs>) {
    if r.Err? then v == r
    else v.Ok? && Alike(s, r.value.next, u, v.value.next) && TextRedirs(s, r.value.list) == TextRedirs(u, v.value.list)
  }

  lemma TextRedirsMore(s: string, a: seq<Redirection<Span>>, u: string, b: seq<Redirection<Span>>,
                       a': seq<Redirection<Span>>, b': seq<Redirection<Span>>)
    requires TextRedirs(s, a) == TextRedirs(u, b) && TextRedirs(s, a') == TextRedirs(u, b')
    ensures TextRedirs(s, a + a') == TextRedirs(u, b + b')
  {
    assert TextRedirs(s, a + a') == TextRedirs(s, a) + TextRedirs(s, a');
    assert TextRedirs(u, b + b') == TextRedirs(u, b) + TextRedirs(u, b');
  }

  lemma {:induction false} RedirsSame(s: string, p: nat, a: seq<Redirection<Span>>, u: string, q: nat, b: seq<Redirection<Span>>)
    requires Alike(s, p, u, q) && TextRedirs(s, a) == TextRedirs(u, b)
    ensures SameRedirs(s, RedirsFrom(s, p, a), u, RedirsFrom(u, q, b))
    decreases |s| - p
  {
    hide NextToken, PeekAt, Alike, Slice;
    AlikePeek(s, p, u, q, {'<', '>'});
    if PeekAt(s, p, {'<', '>'}) {
      var op, po := NextToken(s, p), NextToken(u, q);
      AlikeNext(s, p, u, q);
      var file, elif := NextToken(s, op.next), NextToken(u, po.next);
      AlikeNext(s, op.next, u, po.next);
      if file.kind == 'a' {
        var x := [Redirection(Span(file.q, file.eq), if op.kind == '<' then In else Out)];
        var y := [Redirection(Span(elif.q, elif.eq), if po.kind == '<' then In else Out)];
        assert TextRedirs(s, x) == TextRedirs(u, y);
        TextRedirsMore(s, a, u, b, x, y);
        RedirsSame(s, file.next, a + x, u, elif.next, b + y);
      }
    }
  }

  lemma WrapSame(s: string, c: Cmd<Span>, a: seq<Redirection<Span>>, u: string, d: Cmd<Span>, b: seq<Redirection<Span>>)
    requires Text(s, c) == Text(u, d) && TextRedirs(s, a) == TextRedirs(u, b)
    ensures Text(s, Wrap(c, a)) == Text(u, Wrap(d, b))
  {
    TextWrap(s, c, a);
    TextWrap(u, d, b);
  }

  lemma {:induction false} ArgsSame(s: string, p: nat, ws: seq<Span>, a: seq<Redirection<Span>>,
                                    u: string, q: nat, vs: seq<Span>, b: seq<Redirection<Span>>)
    requires Alike(s, p, u, q) && Slices(s, ws) == Slices(u, vs) && TextRedirs(s, a) == TextRedirs(u, b)
    ensures SameParse(s, ArgsFrom(s, p, ws, a), u, ArgsFrom(u, q, vs, b))
    decreases |s| - p
  {
    hide NextToken, PeekAt, Alike, Slice, RedirsFrom, Wrap;
    AlikePeek(s, p, u, q, {'|', ')', '&', ';'});
    WrapSame(s, Exec(ws), a, u, Exec(vs), b);
    if !PeekAt(s, p, {'|', ')', '&', ';'}) {
      var t, v := NextToken(s, p), NextToken(u, q);
      AlikeNext(s, p, u, q);
      if t.kind == 'a' && |ws| + 1 < MAXARGS {
        RedirsSame(s, t.next, [], u, v.next, []);
        var more, erom := RedirsFrom(s, t.next, []), RedirsFrom(u, v.next, []);
        if more.Ok? {
          TextRedirsMore(s, a, u, b, more.value.list, erom.value.list);
          SlicesSnoc(s, ws, Span(t.q, t.eq), u, vs, Span(v.q, v.eq));
          ArgsSame(s, more.value.next, ws + [Span(t.q, t.eq)], a + more.value.list,
                   u, erom.value.next, vs + [Span(v.q, v.eq)], b + erom.value.list);
        }
      }
    }
  }

  lemma SlicesSnoc(s: string, ws: seq<Span>, w: Span, u: string, vs: seq<Span>, v: Span)
    requires Slices(s, ws) == Slices(u, vs) && Slice(s, w) == Slice(u, v)
    ensures Slices(s, ws + [w]) == Slices(u, vs + [v]) && |ws| == |vs|
  {
    assert Slices(s, ws + [w]) == Slices(s, ws) + [Slice(s, w)];
    assert Slices(u, vs + [v]) == Slices(u, vs) + [Slice(u, v)];
  }

  lemma {:induction false} ExecSame(s: string, p: nat, u: string, q: nat)
    requires Alike(s, p, u, q)
    ensures SameParse(s, ExecAt(s, p), u, ExecAt(u, q))
    decreases |s| - p, 1
  {
    hide NextToken, PeekAt, Alike, RedirsFrom, ArgsFrom, BlockAt;
    AlikePeek(s, p, u, q, {'('});
    if PeekAt(s, p, {'('}) {
      BlockSame(s, p, u, q);
    } else {
      RedirsSame(s, p, [], u, q, []);
      var r, v := RedirsFrom(s, p, []), RedirsFrom(u, q, []);
      if r.Ok? { ArgsSame(s, r.value.next, [], r.value.list, u, v.value.next, [], v.value.list); }
    }
  }

  lemma {:induction false} BlockSame(s: string, p: nat, u: string, q: nat)
    requires Alike(s, p, u, q) && PeekAt(s, p, {'('})
    ensures SameParse(s, BlockAt(s, p), u, BlockAt(u, q))
    decreases |s| - p, 0
  {
    Seen(s, p);
    hide NextToken, PeekAt, Alike, RedirsFrom, LineAt, Wrap;
    AlikePeek(s, p, u, q, {'('});
    AlikeNext(s, p, u, q);
    var n, m := NextToken(s, p).next, NextToken(u, q).next;
    LineSame(s, n, u, m);
    var r, v := LineAt(s, n), LineAt(u, m);
    if r.Ok? {
      AlikePeek(s, r.value.next, u, v.value.next, {')'});
      AlikeNext(s, r.value.next, u, v.value.next);
      var k, l := NextToken(s, r.value.next).next, NextToken(u, v.value.next).next;
      RedirsSame(s, k, [], u, l, []);
      var a, b := RedirsFrom(s, k, []), RedirsFrom(u, l, []);
      if a.Ok? { WrapSame(s, r.value.cmd, a.value.list, u, v.value.cmd, b.value.list); }
    }
  }

  lemma SeenAt(s: string, p: nat, c: char)
    requires p <= |s| && c in {'(', '|', '&', ';'} && PeekAt(s, p, {c})
    ensures NextToken(s, p).next > p
  {
    Seen(s, p);
  }

  /** A symbol takes a byte. */
  lemma Seen(s: string, p: nat)
    requires p <= |s| && At(s, SkipBlanks(s, p)) in {'(', '|', '&', ';'}
    ensures NextToken(s, p).next > p
  {
  }

  lemma {:induction false} PipeSame(s: string, p: nat, u: string, q: nat)
    requires Alike(s, p, u, q)
    ensures SameParse(s, PipeAt(s, p), u, PipeAt(u, q))
    decreases |s| - p, 2
  {
    AlikeBounds(s, p, u, q);
    hide *;
    ExecSame(s, p, u, q);
    var r, v := ExecAt(s, p), ExecAt(u, q);
    SameParts(s, r, u, v);
    if r.Err? {
      PipeErr(s, p);
      PipeErr(u, q);
    } else {
      AlikePeek(s, r.value.next, u, v.value.next, {'|'}) by { assert Symbol('|'); }
      if PeekAt(s, r.value.next, {'|'}) {
        SeenAt(s, r.value.next, '|');
        AlikeNext(s, r.value.next, u, v.value.next);
        var n, m := NextToken(s, r.value.next).next, NextToken(u, v.value.next).next;
        PipeSame(s, n, u, m);
        PipeMore(s, p);
        PipeMore(u, q);
        PipedSame(s, r.value.cmd, PipeAt(s, n), u, v.value.cmd, PipeAt(u, m));
      } else {
        PipeLast(s, p);
        PipeLast(u, q);
        SameOk(s, r.value.cmd, SkipBlanks(s, r.value.next), u, v.value.cmd, SkipBlanks(u, v.value.next));
      }
    }
  }

  lemma AlikeBounds(s: string, p: nat, u: string, q: nat)
    requires Alike(s, p, u, q)
    ensures p <= |s| && q <= |u|
  {
  }

  /** What a pipeline is parsed to, given what its right side is. */
  function Piped(c: Cmd<Span>, rest: Result<Parsed>): Result<Parsed> {
    if rest.Err? then rest else Ok(Parsed(Pipe(c, rest.value.cmd), rest.value.next))
  }

  lemma PipedSame(s: string, c: Cmd<Span>, r: Result<Parsed>, u: string, d: Cmd<Span>, v: Result<Parsed>)
    requires Text(s, c) == Text(u, d) && SameParse(s, r, u, v)
    ensures SameParse(s, Piped(c, r), u, Piped(d, v))
  {
    hide Alike;
  }

  // The pipeline rule, case by case.

  lemma PipeErr(s: string, p: nat)
    requires p <= |s| && ExecAt(s, p).Err?
    ensures PipeAt(s, p) == ExecAt(s, p)
  {
  }

  lemma PipeLast(s: string, p: nat)
    requires p <= |s| && ExecAt(s, p).Ok? && !PeekAt(s, ExecAt(s, p).value.next, {'|'})
    ensures PipeAt(s, p) == Ok(Parsed(ExecAt(s, p).value.cmd, SkipBlanks(s, ExecAt(s, p).value.next)))
  {
    hide ExecAt, NextToken, PeekAt, SkipBlanks;
  }

  lemma PipeMore(s: string, p: nat)
    requires p <= |s| && ExecAt(s, p).Ok? && PeekAt(s, ExecAt(s, p).value.next, {'|'})
    ensures PipeAt(s, p) == Piped(ExecAt(s, p).value.cmd, PipeAt(s, NextToken(s, ExecAt(s, p).value.next).next))
  {
    hide ExecAt, NextToken, PeekAt, SkipBlanks;
  }

  lemma {:induction false} BacksSame(s: string, p: nat, c: Cmd<Span>, u: string, q: nat, d: Cmd<Span>)
    requires Alike(s, p, u, q) && Text(s, c) == Text(u, d)
    ensures var r, v := BacksFrom(s, p, c), BacksFrom(u, q, d); Alike(s, r.next, u, v.next) && Text(s, r.cmd) == Text(u, v.cmd)
    decreases |s| - p
  {
    hide NextToken, Alike;
    AlikePeek(s, p, u, q, {'&'});
    if PeekAt(s, p, {'&'}) {
      Seen(s, p);
      AlikeNext(s, p, u, q);
      BacksSame(s, NextToken(s, p).next, Back(c), u, NextToken(u, q).next, Back(d));
    }
  }

  lemma {:induction false} LineSame(s: string, p: nat, u: string, q: nat)
    requires Alike(s, p, u, q)
    ensures SameParse(s, LineAt(s, p), u, LineAt(u, q))
    decreases |s| - p, 3
  {
    assert p <= |s| && q <= |u|;
    hide PipeAt, NextToken, Alike, BacksFrom, PeekAt, LineAt, SkipBlanks, Text, SameParse;
    PipeSame(s, p, u, q);
    var r, v := PipeAt(s, p), PipeAt(u, q);
    SameParts(s, r, u, v);
    if r.Err? {
      LineErr(s, p);
      LineErr(u, q);
    } else {
      BacksSame(s, r.value.next, r.value.cmd, u, v.value.next, v.value.cmd);
      var b, k := BacksFrom(s, r.value.next, r.value.cmd), BacksFrom(u, v.value.next, v.value.cmd);
      AlikePeek(s, b.next, u, k.next, {';'});
      if PeekAt(s, b.next, {';'}) {
        SeenAt(s, b.next, ';');
        AlikeNext(s, b.next, u, k.next);
        var n, m := NextToken(s, b.next).next, NextToken(u, k.next).next;
        LineSame(s, n, u, m);
        LineMore(s, p, b);
        LineMore(u, q, k);
        ListSame(s, b.cmd, LineAt(s, n), u, k.cmd, LineAt(u, m));
      } else {
        LineLast(s, p, b);
        LineLast(u, q, k);
        SameOk(s, b.cmd, SkipBlanks(s, b.next), u, k.cmd, SkipBlanks(u, k.next));
      }
    }
  }

  lemma SameParts(s: string, r: Result<Parsed>, u: string, v: Result<Parsed>)
    requires SameParse(s, r, u, v)
    ensures r.Err? ==> v == r
    ensures r.Ok? ==> v.Ok? && Alike(s, r.value.next, u, v.value.next) && Text(s, r.value.cmd) == Text(u, v.value.cmd)
    ensures r.Ok? ==> r.value.next <= |s| && v.value.next <= |u|
  {
  }

  lemma SameOk(s: string, c: Cmd<Span>, n: nat, u: string, d: Cmd<Span>, m: nat)
    requires Alike(s, n, u, m) && Text(s, c) == Text(u, d)
    ensures SameParse(s, Ok(Parsed(c, n)), u, Ok(Parsed(d, m)))
  {
  }

  /** What a list is parsed to, given what its right side is. */
  function Listed(c: Cmd<Span>, rest: Result<Parsed>): Result<Parsed> {
    if rest.Err? then rest else Ok(Parsed(List(c, rest.value.cmd), rest.value.next))
  }

  lemma ListSame(s: string, c: Cmd<Span>, r: Result<Parsed>, u: string, d: Cmd<Span>, v: Result<Parsed>)
    requires Text(s, c) == Text(u, d) && SameParse(s, r, u, v)
    ensures SameParse(s, Listed(c, r), u, Listed(d, v))
  {
    hide Alike;
  }

  // The line rule, case by case.

  lemma LineErr(s: string, p: nat)
    requires p <= |s| && PipeAt(s, p).Err?
    ensures LineAt(s, p) == PipeAt(s, p)
  {
  }

  lemma LineLast(s: string, p: nat, b: Parsed)
    requires p <= |s| && PipeAt(s, p).Ok? && b == BacksFrom(s, PipeAt(s, p).value.next, PipeAt(s, p).value.cmd) && !PeekAt(s, b.next, {';'})
    ensures LineAt(s, p) == Ok(Parsed(b.cmd, SkipBlanks(s, b.next)))
  {
    hide PipeAt, NextToken, BacksFrom, PeekAt, SkipBlanks;
  }

  lemma LineMore(s: string, p: nat, b: Parsed)
    requires p <= |s| && PipeAt(s, p).Ok? && b == BacksFrom(s, PipeAt(s, p).value.next, PipeAt(s, p).value.cmd) && PeekAt(s, b.next, {';'})
    ensures LineAt(s, p) == Listed(b.cmd, LineAt(s, NextToken(s, b.next).next))
  {
    hide PipeAt, NextToken, BacksFrom, PeekAt, SkipBlanks;
  }

  /** Two lines with the same tokens parse to the same command, or fail alike. */
  lemma SameTokensSameParse(s: string, u: string)
    requires Line(s) && Line(u) && Tokens(s, 0) == Tokens(u, 0)
    ensures ParseLine(s).Ok? ==> ParseLine(u).Ok? && Text(s, ParseLine(s).value) == Text(u, ParseLine(u).value)
    ensures ParseLine(s).Err? ==> ParseLine(u) == ParseLine(s)
  {
    hide LineAt;
    LineSame(s, 0, u, 0);
    var r, v := LineAt(s, 0), LineAt(u, 0);
    if r.Ok? {
      TokensEnd(s, r.value.next);
      TokensEnd(u, v.value.next);
    }
  }

  lemma TokensEnd(s: string, p: nat)
    requires Line(s) && p <= |s|
    ensures Tokens(s, p) == [] <==> SkipBlanks(s, p) == |s|
  {
  }
}
