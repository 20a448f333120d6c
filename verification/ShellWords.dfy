/** Where the words of a parsed command lie, and what nulterminate makes of them. */
module ShellWords {
  import opened Shell
  import opened ShellPrint

  /** s[q..eq] is a whole word: nothing but word bytes, and none after it. */
  predicate WordSpan(s: string, w: Span) {
    && w.q < w.eq <= |s| && !WordChar(At(s, w.eq))
    && forall i :: w.q <= i < w.eq ==> WordChar(s[i])
  }

  predicate WordSpans(s: string, ws: seq<Span>) {
    forall k :: 0 <= k < |ws| ==> WordSpan(s, ws[k])
  }

  /** Before the file name, with nothing but blanks between, stands '<' for reading and '>' for writing. */
  predicate ModeShown(s: string, file: Span, mode: Mode) {
    exists k :: 0 <= k < file.q <= |s| && s[k] == (if mode == In then '<' else '>') && forall i :: k < i < file.q ==> Blank(s[i])
  }

  predicate FileSpans(s: string, rs: seq<Redirection<Span>>) {
    forall k :: 0 <= k < |rs| ==> WordSpan(s, rs[k].file) && ModeShown(s, rs[k].file, rs[k].mode)
  }

  predicate AllWords(s: string, c: Cmd<Span>) {
    match c
    case Exec(args) => |args| < MAXARGS && WordSpans(s, args)
    case Redir(d, file, mode) => AllWords(s, d) && WordSpan(s, file) && ModeShown(s, file, mode)
    case Pipe(l, r) => AllWords(s, l) && AllWords(s, r)
    case List(l, r) => AllWords(s, l) && AllWords(s, r)
    case Back(d) => AllWords(s, d)
  }

  // ---------------------------------------------------------------- every parse

  lemma TokenWord(s: string, p: nat)
    requires Line(s) && p <= |s| && NextToken(s, p).kind == 'a'
    ensures WordSpan(s, Span(NextToken(s, p).q, NextToken(s, p).eq))
  {
  }

  lemma {:induction false} WrapWords(s: string, c: Cmd<Span>, rs: seq<Redirection<Span>>)
    requires AllWords(s, c) && FileSpans(s, rs)
    ensures AllWords(s, Wrap(c, rs))
  {
    if rs != [] { WrapWords(s, c, rs[..|rs| - 1]); }
  }

  /** The symbol that a redirection starts with is the last one before its file. */
  lemma TokenMode(s: string, p: nat)
    requires Line(s) && p <= |s| && PeekAt(s, p, {'<', '>'}) && NextToken(s, NextToken(s, p).next).kind == 'a'
    ensures var op, file := NextToken(s, p), NextToken(s, NextToken(s, p).next);
            ModeShown(s, Span(file.q, file.eq), if op.kind == '<' then In else Out)
  {
    var op, file := NextToken(s, p), NextToken(s, NextToken(s, p).next);
    var k := op.eq - 1;
    assert s[k] == if op.kind == '<' then '<' else '>';
    forall i | k < i < file.q ensures Blank(s[i]) {}
  }

  lemma {:induction false} RedirsWords(s: string, p: nat, rs: seq<Redirection<Span>>)
    requires Line(s) && p <= |s| && FileSpans(s, rs)
    ensures RedirsFrom(s, p, rs).Ok? ==> FileSpans(s, RedirsFrom(s, p, rs).value.list)
    decreases |s| - p
  {
    hide NextToken, WordSpan, ModeShown, PeekAt;
    if PeekAt(s, p, {'<', '>'}) {
      var op := NextToken(s, p);
      var file := NextToken(s, op.next);
      if file.kind == 'a' {
        TokenWord(s, op.next);
        TokenMode(s, p);
        RedirsWords(s, file.next, rs + [Redirection(Span(file.q, file.eq), if op.kind == '<' then In else Out)]);
      }
    }
  }

  lemma {:induction false} ArgsWords(s: string, p: nat, args: seq<Span>, rs: seq<Redirection<Span>>)
    requires Line(s) && p <= |s| && |args| < MAXARGS && WordSpans(s, args) && FileSpans(s, rs)
    ensures ArgsFrom(s, p, args, rs).Ok? ==> AllWords(s, ArgsFrom(s, p, args, rs).value.cmd)
    decreases |s| - p
  {
    hide NextToken, WordSpan, ModeShown, RedirsFrom;
    WrapWords(s, Exec(args), rs);
    if !PeekAt(s, p, {'|', ')', '&', ';'}) {
      var t := NextToken(s, p);
      if t.kind == 'a' && |args| + 1 < MAXARGS {
        TokenWord(s, p);
        RedirsWords(s, t.next, []);
        var more := RedirsFrom(s, t.next, []);
        if more.Ok? { ArgsWords(s, more.value.next, args + [Span(t.q, t.eq)], rs + more.value.list); }
      }
    }
  }

  lemma {:induction false} ExecWords(s: string, p: nat)
    requires Line(s) && p <= |s|
    ensures ExecAt(s, p).Ok? ==> AllWords(s, ExecAt(s, p).value.cmd)
    decreases |s| - p, 1
  {
    hide RedirsFrom, ArgsFrom, AllWords;
    if PeekAt(s, p, {'('}) {
      BlockWords(s, p);
    } else {
      RedirsWords(s, p, []);
      var rs := RedirsFrom(s, p, []);
      if rs.Ok? { ArgsWords(s, rs.value.next, [], rs.value.list); }
    }
  }

  lemma {:induction false} BlockWords(s: string, p: nat)
    requires Line(s) && p <= |s| && PeekAt(s, p, {'('})
    ensures BlockAt(s, p).Ok? ==> AllWords(s, BlockAt(s, p).value.cmd)
    decreases |s| - p, 0
  {
    hide RedirsFrom, AllWords, Wrap;
    LineWords(s, NextToken(s, p).next);
    var body := LineAt(s, NextToken(s, p).next);
    if body.Ok? && PeekAt(s, body.value.next, {')'}) {
      var n := NextToken(s, body.value.next).next;
      RedirsWords(s, n, []);
      if RedirsFrom(s, n, []).Ok? { WrapWords(s, body.value.cmd, RedirsFrom(s, n, []).value.list); }
    }
  }

  lemma {:induction false} PipeWords(s: string, p: nat)
    requires Line(s) && p <= |s|
    ensures PipeAt(s, p).Ok? ==> AllWords(s, PipeAt(s, p).value.cmd)
    decreases |s| - p, 2
  {
    hide ExecAt;
    ExecWords(s, p);
    var left := ExecAt(s, p);
    if left.Ok? && PeekAt(s, left.value.next, {'|'}) { PipeWords(s, NextToken(s, left.value.next).next); }
  }

  lemma {:induction false} BacksWords(s: string, p: nat, c: Cmd<Span>)
    requires p <= |s| && AllWords(s, c)
    ensures AllWords(s, BacksFrom(s, p, c).cmd)
    decreases |s| - p
  {
    if PeekAt(s, p, {'&'}) { BacksWords(s, NextToken(s, p).next, Back(c)); }
  }

  lemma {:induction false} LineWords(s: string, p: nat)
    requires Line(s) && p <= |s|
    ensures LineAt(s, p).Ok? ==> AllWords(s, LineAt(s, p).value.cmd)
    decreases |s| - p, 3
  {
    hide PipeAt, BacksFrom;
    PipeWords(s, p);
    var first := PipeAt(s, p);
    if first.Ok? {
      BacksWords(s, first.value.next, first.value.cmd);
      var b := BacksFrom(s, first.value.next, first.value.cmd);
      if PeekAt(s, b.next, {';'}) { LineWords(s, NextToken(s, b.next).next); }
    }
  }

  /** Every word of a parsed line is a maximal run of word bytes. */
  lemma ParsedWords(s: string)
    requires Line(s)
    ensures ParseLine(s).Ok? ==> AllWords(s, ParseLine(s).value)
  {
    LineWords(s, 0);
  }

  /** c opens this file in this mode. */
  predicate Opens(c: Cmd<Span>, file: Span, mode: Mode) {
    match c
    case Exec(_) => false
    case Redir(d, f, m) => (f == file && m == mode) || Opens(d, file, mode)
    case Pipe(l, r) => Opens(l, file, mode) || Opens(r, file, mode)
    case List(l, r) => Opens(l, file, mode) || Opens(r, file, mode)
    case Back(d) => Opens(d, file, mode)
  }

  lemma {:induction false} OpensShown(s: string, c: Cmd<Span>, file: Span, mode: Mode)
    requires AllWords(s, c) && Opens(c, file, mode)
    ensures ModeShown(s, file, mode)
  {
    hide ModeShown, WordSpan;
    match c
    case Redir(d, f, m) => if !(f == file && m == mode) { OpensShown(s, d, file, mode); }
    case Pipe(l, r) => if Opens(l, file, mode) { OpensShown(s, l, file, mode); } else { OpensShown(s, r, file, mode); }
    case List(l, r) => if Opens(l, file, mode) { OpensShown(s, l, file, mode); } else { OpensShown(s, r, file, mode); }
    case Back(d) => OpensShown(s, d, file, mode);
  }

  /** Every file a parsed line opens is opened for reading after '<' and for writing after '>' or '>>'. */
  lemma ParsedModes(s: string, file: Span, mode: Mode)
    requires Line(s) && ParseLine(s).Ok? && Opens(ParseLine(s).value, file, mode)
    ensures ModeShown(s, file, mode)
  {
    hide ParseLine;
    ParsedWords(s);
    OpensShown(s, ParseLine(s).value, file, mode);
  }

  lemma {:induction false} WordsPrintable(s: string, c: Cmd<Span>)
    requires AllWords(s, c)
    ensures Printable(Text(s, c))
  {
    match c
    case Exec(args) =>
      forall k | 0 <= k < |args| ensures Word(Slices(s, args)[k]) { assert WordSpan(s, args[k]); }
    case Redir(d, file, _) => WordsPrintable(s, d);
    case Pipe(l, r) => WordsPrintable(s, l); WordsPrintable(s, r);
    case List(l, r) => WordsPrintable(s, l); WordsPrintable(s, r);
    case Back(d) => WordsPrintable(s, d);
  }

  /**
   The commands that can be printed are the ones that parsing gives: every line that parses spells
   one, and printing it gives a line that parses to the same command.
   */
  lemma ParsedPrints(s: string)
    requires Line(s) && ParseLine(s).Ok?
    ensures var c := Text(s, ParseLine(s).value);
            Printable(c) && ParseLine(Print(c)).Ok? && Text(Print(c), ParseLine(Print(c)).value) == c
  {
    hide ParseLine;
    ParsedWords(s);
    WordsPrintable(s, ParseLine(s).value);
    RoundTrip(Text(s, ParseLine(s).value));
  }

  // ---------------------------------------------------------------- nulterminate

  function SpanEnds(ws: seq<Span>): set<nat> {
    set k | 0 <= k < |ws| :: ws[k].eq
  }

  /** The bytes nulterminate overwrites. */
  function Ends(c: Cmd<Span>): set<nat> {
    match c
    case Exec(args) => SpanEnds(args)
    case Redir(d, file, _) => Ends(d) + {file.eq}
    case Pipe(l, r) => Ends(l) + Ends(r)
    case List(l, r) => Ends(l) + Ends(r)
    case Back(d) => Ends(d)
  }

  /** w is one of the words or files of c. */
  predicate WordOf(c: Cmd<Span>, w: Span) {
    match c
    case Exec(args) => w in args
    case Redir(d, file, _) => w == file || WordOf(d, w)
    case Pipe(l, r) => WordOf(l, w) || WordOf(r, w)
    case List(l, r) => WordOf(l, w) || WordOf(r, w)
    case Back(d) => WordOf(d, w)
  }

  predicate Within(c: Cmd<Span>, n: nat) {
    forall e :: e in Ends(c) ==> e < n
  }

  lemma WithinParts(c: Cmd<Span>, n: nat)
    requires Within(c, n)
    ensures (c.Redir? || c.Back?) ==> Within(c.cmd, n)
    ensures c.Redir? ==> c.file.eq < n
    ensures c.Exec? ==> forall k :: 0 <= k < |c.args| ==> c.args[k].eq < n
    ensures (c.Pipe? || c.List?) ==> Within(c.left, n) && Within(c.right, n)
  {
    assert Ends(c) == match c
      case Exec(args) => SpanEnds(args)
      case Redir(d, file, _) => Ends(d) + {file.eq}
      case Pipe(l, r) => Ends(l) + Ends(r)
      case List(l, r) => Ends(l) + Ends(r)
      case Back(d) => Ends(d);
    assert c.Redir? ==> c.file.eq in Ends(c);
    if c.Exec? {
      forall k | 0 <= k < |c.args| ensures c.args[k].eq < n { assert c.args[k].eq in Ends(c); }
    }
  }

  method Nulterminate(buf: array<char>, c: Cmd<Span>)
    requires Within(c, buf.Length)
    modifies buf
    ensures forall i :: 0 <= i < buf.Length ==> buf[i] == if i in Ends(c) then NUL else old(buf[i])
    decreases c
  {
    WithinParts(c, buf.Length);
    match c
    case Exec(args) =>
      for i := 0 to |args|
        invariant forall j :: 0 <= j < buf.Length ==> buf[j] == if j in SpanEnds(args[..i]) then NUL else old(buf[j])
      {
        assert SpanEnds(args[..i + 1]) == SpanEnds(args[..i]) + {args[i].eq} by {
          forall e ensures e in SpanEnds(args[..i + 1]) <==> e in SpanEnds(args[..i]) || e == args[i].eq {
            if e == args[i].eq { assert args[..i + 1][i].eq == e; }
            if e in SpanEnds(args[..i]) {
              var k :| 0 <= k < |args[..i]| && args[..i][k].eq == e;
              assert args[..i + 1][k].eq == e;
            }
          }
        }
        buf[args[i].eq] := NUL;
      }
      assert args[..|args|] == args;
    case Redir(d, file, _) =>
      Nulterminate(buf, d);
      buf[file.eq] := NUL;
    case Pipe(l, r) =>
      Nulterminate(buf, l);
      Nulterminate(buf, r);
    case List(l, r) =>
      Nulterminate(buf, l);
      Nulterminate(buf, r);
    case Back(d) =>
      Nulterminate(buf, d);
  }

  /** The bytes from q up to the first NUL: the C string there. */
  function CString(b: seq<char>, q: nat): string
    decreases |b| - q
  {
    if q >= |b| || b[q] == NUL then "" else [b[q]] + CString(b, q + 1)
  }

  lemma {:induction false} EndsAreOutside(s: string, c: Cmd<Span>, w: Span, e: nat)
    requires AllWords(s, c) && e in Ends(c) && WordSpan(s, w)
    ensures e <= |s| && !(w.q <= e < w.eq)
  {
    match c
    case Exec(args) => var k :| 0 <= k < |args| && args[k].eq == e; assert WordSpan(s, args[k]);
    case Redir(d, file, _) => if e != file.eq { EndsAreOutside(s, d, w, e); }
    case Pipe(l, r) => if e in Ends(l) { EndsAreOutside(s, l, w, e); } else { EndsAreOutside(s, r, w, e); }
    case List(l, r) => if e in Ends(l) { EndsAreOutside(s, l, w, e); } else { EndsAreOutside(s, r, w, e); }
    case Back(d) => EndsAreOutside(s, d, w, e);
  }

  lemma {:induction false} WordIsWhole(s: string, c: Cmd<Span>, w: Span)
    requires AllWords(s, c) && WordOf(c, w)
    ensures WordSpan(s, w) && w.eq in Ends(c)
  {
    match c
    case Exec(args) => var k :| 0 <= k < |args| && args[k] == w;
    case Redir(d, file, _) => if w != file { WordIsWhole(s, d, w); }
    case Pipe(l, r) => if WordOf(l, w) { WordIsWhole(s, l, w); } else { WordIsWhole(s, r, w); }
    case List(l, r) => if WordOf(l, w) { WordIsWhole(s, l, w); } else { WordIsWhole(s, r, w); }
    case Back(d) => WordIsWhole(s, d, w);
  }

  lemma {:induction false} CStringIs(b: seq<char>, s: string, q: nat, e: nat)
    requires q <= e <= |s| && e < |b| && b[e] == NUL && forall i :: q <= i < e ==> b[i] == s[i] && s[i] != NUL
    ensures CString(b, q) == s[q..e]
    decreases e - q
  {
    if q < e {
      CStringIs(b, s, q + 1, e);
      assert s[q..e] == [s[q]] + s[q + 1..e];
    }
  }

  /** After nulterminate every word and file name reads back, as a C string, as exactly its span. */
  lemma WordsReadBack(s: string, b: seq<char>, w: Span)
    requires Line(s) && ParseLine(s).Ok? && WordOf(ParseLine(s).value, w) && |b| == |s| + 1
    requires forall i :: 0 <= i <= |s| ==> b[i] == if i in Ends(ParseLine(s).value) then NUL else At(s, i)
    ensures w.q < w.eq <= |s| && CString(b, w.q) == s[w.q..w.eq] == Slice(s, w)
  {
    var c := ParseLine(s).value;
    hide ParseLine;
    ParsedWords(s);
    WordIsWhole(s, c, w);
    forall i | w.q <= i < w.eq ensures b[i] == s[i] && s[i] != NUL {
      if i in Ends(c) { EndsAreOutside(s, c, w, i); }
    }
    CStringIs(b, s, w.q, w.eq);
  }
}
