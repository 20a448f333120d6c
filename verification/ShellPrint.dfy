/** Printing a command with the parentheses it needs and no others, and parsing it back. */
module ShellPrint {
  import opened Shell

  function Slice(s: string, w: Span): string {
    if w.q <= w.eq <= |s| then s[w.q..w.eq] else ""
  }

  function Slices(s: string, ws: seq<Span>): (r: seq<string>)
    ensures |r| == |ws| && forall k :: 0 <= k < |r| ==> r[k] == Slice(s, ws[k])
  {
    seq(|ws|, k requires 0 <= k < |ws| => Slice(s, ws[k]))
  }

  /** The command the spans of s spell. */
  function Text(s: string, c: Cmd<Span>): Cmd<string> {
    match c
    case Exec(args) => Exec(Slices(s, args))
    case Redir(d, file, mode) => Redir(Text(s, d), Slice(s, file), mode)
    case Pipe(l, r) => Pipe(Text(s, l), Text(s, r))
    case List(l, r) => List(Text(s, l), Text(s, r))
    case Back(d) => Back(Text(s, d))
  }

  predicate Word(w: string) { |w| > 0 && forall i :: 0 <= i < |w| ==> WordChar(w[i]) }

  /** A command that can be written down: real words, at most MAXARGS - 1 to a command. */
  predicate Printable(c: Cmd<string>) {
    match c
    case Exec(ws) => |ws| < MAXARGS && forall k :: 0 <= k < |ws| ==> Word(ws[k])
    case Redir(d, file, _) => Printable(d) && Word(file)
    case Pipe(l, r) => Printable(l) && Printable(r)
    case List(l, r) => Printable(l) && Printable(r)
    case Back(d) => Printable(d)
  }

  function Join(ws: seq<string>): string {
    if ws == [] then "" else if |ws| == 1 then ws[0] else ws[0] + " " + Join(ws[1..])
  }

  function Op(mode: Mode): char { if mode == In then '<' else '>' }

  /** How loosely the outermost operator binds: 0 for ;, 1 for &, 2 for |, 3 for a simple command or a block. */
  function Level<W>(c: Cmd<W>): nat {
    match c
    case Exec(_) => 3
    case Redir(_, _, _) => 3
    case Pipe(_, _) => 2
    case Back(_) => 1
    case List(_, _) => 0
  }

  /** c where only commands of the given level may stand; a looser one goes into parentheses. */
  function Show(c: Cmd<string>, level: nat): string
    decreases c, if Level(c) < level then 1 else 0
  {
    if Level(c) < level then "(" + Show(c, 0) + ")"
    else
      match c
      case Exec(ws) => Join(ws)
      case Redir(d, file, mode) => Show(d, 3) + ([Op(mode)] + file)
      case Pipe(l, r) => Show(l, 3) + ("|" + Show(r, 2))
      case Back(d) => Show(d, 1) + "&"
      case List(l, r) => Show(l, 1) + (";" + Show(r, 0))
  }

  function Print(c: Cmd<string>): string { Show(c, 0) }

  /** The command inside the redirections around it, and those redirections, the outermost last. */
  function Base<W>(c: Cmd<W>): Cmd<W> { if c.Redir? then Base(c.cmd) else c }

  function Around<W>(c: Cmd<W>): seq<Redirection<W>> {
    if c.Redir? then Around(c.cmd) + [Redirection(c.file, c.mode)] else []
  }

  function ShowRedirs(rs: seq<Redirection<string>>): string {
    if rs == [] then "" else ShowRedirs(rs[..|rs| - 1]) + ([Op(rs[|rs| - 1].mode)] + rs[|rs| - 1].file)
  }

  function TextRedirs(s: string, rs: seq<Redirection<Span>>): (r: seq<Redirection<string>>)
    ensures |r| == |rs| && forall k :: 0 <= k < |r| ==> r[k] == Redirection(Slice(s, rs[k].file), rs[k].mode)
  {
    seq(|rs|, k requires 0 <= k < |rs| => Redirection(Slice(s, rs[k].file), rs[k].mode))
  }

  lemma {:induction false} ShowAround(c: Cmd<string>)
    requires Printable(c)
    ensures Show(c, 3) == Show(Base(c), 3) + ShowRedirs(Around(c)) && Wrap(Base(c), Around(c)) == c
    ensures !Base(c).Redir? && Printable(Base(c)) && (Base(c) == c || Base(c) < c)
    ensures forall k :: 0 <= k < |Around(c)| ==> Word(Around(c)[k].file)
  {
    if c.Redir? {
      ShowAround(c.cmd);
      var rs := Around(c);
      assert rs[..|rs| - 1] == Around(c.cmd);
      assert Show(c, 3) == Show(Base(c), 3) + (ShowRedirs(Around(c.cmd)) + ([Op(c.mode)] + c.file));
    }
  }

  lemma {:induction false} TextWrap(s: string, t: Cmd<Span>, rs: seq<Redirection<Span>>)
    ensures Text(s, Wrap(t, rs)) == Wrap(Text(s, t), TextRedirs(s, rs))
  {
    if rs != [] {
      TextWrap(s, t, rs[..|rs| - 1]);
      assert TextRedirs(s, rs)[..|rs| - 1] == TextRedirs(s, rs[..|rs| - 1]);
    }
  }

  // ---------------------------------------------------------------- tokens at a place

  predicate Has(s: string, p: nat, w: string) {
    p + |w| <= |s| && forall i :: 0 <= i < |w| ==> s[p + i] == w[i]
  }

  lemma HasParts(s: string, p: nat, a: string, b: string)
    requires Has(s, p, a + b)
    ensures Has(s, p, a) && Has(s, p + |a|, b)
  {
    forall i | 0 <= i < |a| ensures s[p + i] == a[i] { assert (a + b)[i] == a[i]; }
    forall i | 0 <= i < |b| ensures s[p + |a| + i] == b[i] { assert (a + b)[|a| + i] == b[i]; }
  }

  lemma HasSlice(s: string, p: nat, w: string)
    requires Has(s, p, w)
    ensures Slice(s, Span(p, p + |w|)) == w
  {
  }

  /** What may follow a command of the given level: the end, a closing parenthesis, or a looser operator. */
  predicate Follows(s: string, e: nat, level: nat) {
    && e <= |s|
    && (e == |s| || s[e] == ')' || (level >= 1 && s[e] == ';') || (level >= 2 && s[e] == '&') || (level >= 3 && s[e] == '|'))
  }

  lemma BlanksNone(s: string, p: nat)
    requires p <= |s| && !Blank(At(s, p))
    ensures SkipBlanks(s, p) == p
  {
  }

  lemma HasFirst(s: string, p: nat, w: string)
    requires Has(s, p, w) && w != ""
    ensures p < |s| && s[p] == w[0]
  {
    assert s[p + 0] == w[0];
  }

  lemma {:induction false} WordEnd(s: string, p: nat, e: nat)
    requires Line(s) && p <= e <= |s| && (forall i :: p <= i < e ==> WordChar(s[i])) && !WordChar(At(s, e))
    ensures SkipWord(s, p) == e
    decreases e - p
  {
    if p < e { WordEnd(s, p + 1, e); }
  }

  lemma WordToken(s: string, p: nat, w: string)
    requires Line(s) && Has(s, p, w) && Word(w) && !WordChar(At(s, p + |w|))
    ensures NextToken(s, p) == Token('a', p, p + |w|, SkipBlanks(s, p + |w|)) && p < |s| && WordChar(s[p])
  {
    HasFirst(s, p, w);
    BlanksNone(s, p);
    forall i | p <= i < p + |w| ensures WordChar(s[i]) { assert s[p + (i - p)] == w[i - p]; }
    WordEnd(s, p, p + |w|);
  }

  lemma SymbolToken(s: string, p: nat)
    requires p < |s| && Symbol(s[p]) && !Blank(At(s, p + 1)) && (s[p] == '>' ==> At(s, p + 1) != '>')
    ensures NextToken(s, p) == Token(s[p], p, p + 1, p + 1)
  {
    BlanksNone(s, p);
    BlanksNone(s, p + 1);
  }

  lemma NoRedirs(s: string, p: nat, rs: seq<Redirection<Span>>)
    requires p <= |s| && !Blank(At(s, p)) && At(s, p) != '<' && At(s, p) != '>'
    ensures RedirsFrom(s, p, rs) == Ok(Redirs(rs, p))
  {
    BlanksNone(s, p);
  }

  // ---------------------------------------------------------------- redirections

  lemma RedirStep(s: string, x: nat, r: Redirection<string>, acc: seq<Redirection<Span>>)
    requires Line(s) && Word(r.file) && Has(s, x, [Op(r.mode)] + r.file)
    requires var y := x + 1 + |r.file|; y <= |s| && !Blank(At(s, y)) && !WordChar(At(s, y))
    ensures var y := x + 1 + |r.file|;
            && RedirsFrom(s, x, acc) == RedirsFrom(s, y, acc + [Redirection(Span(x + 1, y), r.mode)])
            && Slice(s, Span(x + 1, y)) == r.file && !Blank(At(s, x)) && !WordChar(At(s, x))
  {
    hide *;
    RedirTokens(s, x, r);
    RedirsMore(s, x, acc);
  }

  lemma RedirTokens(s: string, x: nat, r: Redirection<string>)
    requires Line(s) && Word(r.file) && Has(s, x, [Op(r.mode)] + r.file)
    requires var y := x + 1 + |r.file|; y <= |s| && !Blank(At(s, y)) && !WordChar(At(s, y))
    ensures var y := x + 1 + |r.file|;
            && PeekAt(s, x, {'<', '>'}) && NextToken(s, x) == Token(Op(r.mode), x, x + 1, x + 1)
            && NextToken(s, x + 1) == Token('a', x + 1, y, y) && (r.mode == In <==> Op(r.mode) == '<')
            && Slice(s, Span(x + 1, y)) == r.file && !Blank(At(s, x)) && !WordChar(At(s, x))
  {
    HasParts(s, x, [Op(r.mode)], r.file);
    HasFirst(s, x, [Op(r.mode)]);
    HasFirst(s, x + 1, r.file);
    HasSlice(s, x + 1, r.file);
    assert WordChar(r.file[0]);
    hide Has, Word, Line, NextToken, SkipBlanks, SkipWord, Slice;
    SymbolToken(s, x);
    WordToken(s, x + 1, r.file);
    BlanksNone(s, x + 1 + |r.file|);
    BlanksNone(s, x);
  }

  /** One round of parseredirs. */
  lemma RedirsMore(s: string, x: nat, acc: seq<Redirection<Span>>)
    requires x <= |s| && PeekAt(s, x, {'<', '>'}) && NextToken(s, NextToken(s, x).next).kind == 'a'
    ensures var op, file := NextToken(s, x), NextToken(s, NextToken(s, x).next);
            RedirsFrom(s, x, acc) ==
              RedirsFrom(s, file.next, acc + [Redirection(Span(file.q, file.eq), if op.kind == '<' then In else Out)])
  {
    hide NextToken, PeekAt;
  }

  lemma {:induction false} RedirsRun(s: string, x: nat, rs: seq<Redirection<string>>, acc: seq<Redirection<Span>>)
    returns (list: seq<Redirection<Span>>)
    requires Line(s) && Has(s, x, ShowRedirs(rs)) && forall k :: 0 <= k < |rs| ==> Word(rs[k].file)
    requires var y := x + |ShowRedirs(rs)|; y <= |s| && !Blank(At(s, y)) && !WordChar(At(s, y))
    ensures TextRedirs(s, list) == rs && RedirsFrom(s, x, acc) == RedirsFrom(s, x + |ShowRedirs(rs)|, acc + list)
    ensures !Blank(At(s, x)) && !WordChar(At(s, x))
    decreases |rs|
  {
    hide Has, Line, Word, RedirsFrom, WordChar, Slice;
    if rs == [] {
      list := [];
      assert acc + list == acc;
    } else {
      var most, r := rs[..|rs| - 1], rs[|rs| - 1];
      var y := x + |ShowRedirs(most)|;
      HasParts(s, x, ShowRedirs(most), [Op(r.mode)] + r.file);
      RedirStep(s, y, r, acc);
      var front := RedirsRun(s, x, most, acc);
      RedirStep(s, y, r, acc + front);
      var last := Redirection(Span(y + 1, y + 1 + |r.file|), r.mode);
      list := front + [last];
      assert acc + list == acc + front + [last];
      forall k | 0 <= k < |rs| ensures TextRedirs(s, list)[k] == rs[k] {
        if k < |most| { assert TextRedirs(s, front)[k] == most[k]; }
      }
    }
  }

  /** All the redirections of a command, up to what may follow it. */
  lemma RedirsOf(s: string, x: nat, rs: seq<Redirection<string>>) returns (list: seq<Redirection<Span>>)
    requires Line(s) && Has(s, x, ShowRedirs(rs)) && forall k :: 0 <= k < |rs| ==> Word(rs[k].file)
    requires Follows(s, x + |ShowRedirs(rs)|, 3)
    ensures TextRedirs(s, list) == rs && RedirsFrom(s, x, []) == Ok(Redirs(list, x + |ShowRedirs(rs)|))
    ensures !Blank(At(s, x)) && !WordChar(At(s, x))
  {
    hide Has, Line, Word, RedirsFrom, ShowRedirs, TextRedirs;
    list := RedirsRun(s, x, rs, []);
    assert [] + list == list;
    NoRedirs(s, x + |ShowRedirs(rs)|, list);
  }

  // ---------------------------------------------------------------- simple commands

  lemma JoinFirst(ws: seq<string>)
    requires ws != [] && Word(ws[0])
    ensures |Join(ws)| > 0 && Join(ws)[0] == ws[0][0]
  {
  }

  lemma {:induction false} ArgsOf(s: string, p: nat, ws: seq<string>, rs: seq<Redirection<string>>, args: seq<Span>)
    returns (spans: seq<Span>, list: seq<Redirection<Span>>)
    requires Line(s) && ws != [] && Has(s, p, Join(ws) + ShowRedirs(rs)) && Follows(s, p + |Join(ws) + ShowRedirs(rs)|, 3)
    requires |args| + |ws| < MAXARGS && (forall k :: 0 <= k < |ws| ==> Word(ws[k])) && (forall k :: 0 <= k < |rs| ==> Word(rs[k].file))
    ensures Slices(s, spans) == ws && TextRedirs(s, list) == rs
    ensures ArgsFrom(s, p, args, []) == Ok(Parsed(Wrap(Exec(args + spans), list), p + |Join(ws) + ShowRedirs(rs)|))
    decreases |ws|
  {
    hide Has, Line, Word, Join, ArgsFrom, NextToken, PeekAt, RedirsFrom, Slice, Slices, ShowRedirs, Wrap, WordChar, TextRedirs;
    var w, e, end := ws[0], p + |ws[0]|, p + |Join(ws) + ShowRedirs(rs)|;
    if |ws| == 1 {
      assert Join(ws) == w by { JoinOne(ws); }
      HasParts(s, p, w, ShowRedirs(rs));
      list := RedirsOf(s, e, rs);
      LastWord(s, p, w);
      ArgsLast(s, p, args, Span(p, e), e, list, end);
      HasSlice(s, p, w);
      spans := [Span(p, e)];
      SlicesOne(s, Span(p, e), ws);
    } else {
      var n := WordAt(s, p, ws, ShowRedirs(rs));
      HasSlice(s, p, w);
      ArgsStep(s, p, args, Span(p, e), n);
      var more;
      more, list := ArgsOf(s, n, ws[1..], rs, args + [Span(p, e)]);
      spans := [Span(p, e)] + more;
      assert args + spans == args + [Span(p, e)] + more;
      SlicesMore(s, Span(p, e), more, ws);
    }
  }

  lemma JoinOne(ws: seq<string>)
    requires |ws| == 1
    ensures Join(ws) == ws[0]
  {
  }

  lemma SlicesOne(s: string, w: Span, ws: seq<string>)
    requires |ws| == 1 && Slice(s, w) == ws[0]
    ensures Slices(s, [w]) == ws
  {
  }

  lemma SlicesMore(s: string, w: Span, more: seq<Span>, ws: seq<string>)
    requires ws != [] && Slice(s, w) == ws[0] && Slices(s, more) == ws[1..]
    ensures Slices(s, [w] + more) == ws
  {
    hide Slice;
    forall k | 0 <= k < |ws| ensures Slices(s, [w] + more)[k] == ws[k] {
      if k > 0 { assert Slices(s, more)[k - 1] == ws[1..][k - 1]; }
    }
  }

  /** A word that no word byte or blank follows is the next token, and nothing peek looks for stands there. */
  lemma LastWord(s: string, p: nat, w: string)
    requires Line(s) && Has(s, p, w) && Word(w) && p + |w| <= |s| && !WordChar(At(s, p + |w|)) && !Blank(At(s, p + |w|))
    ensures p <= |s| && NextToken(s, p) == Token('a', p, p + |w|, p + |w|) && !PeekAt(s, p, {'|', ')', '&', ';'})
  {
    hide Has, Word, Line;
    WordToken(s, p, w);
    BlanksNone(s, p + |w|);
    BlanksNone(s, p);
  }

  /** The first of several joined words is the next token, and the rest follow where it leaves off. */
  lemma WordAt(s: string, p: nat, ws: seq<string>, tail: string) returns (n: nat)
    requires |ws| > 1 && Line(s) && Has(s, p, Join(ws) + tail) && Word(ws[0]) && Word(ws[1])
    ensures Has(s, p, ws[0]) && n <= |s| && NextToken(s, p) == Token('a', p, p + |ws[0]|, n)
    ensures RedirsFrom(s, n, []) == Ok(Redirs([], n)) && !PeekAt(s, p, {'|', ')', '&', ';'})
    ensures Has(s, n, Join(ws[1..]) + tail) && n + |Join(ws[1..])| == p + |Join(ws)|
  {
    var w, e := ws[0], p + |ws[0]|;
    n := e + 1;
    var rest := Join(ws[1..]) + tail;
    assert Join(ws) + tail == w + (" " + rest);
    HasParts(s, p, w, " " + rest);
    HasParts(s, e, " ", rest);
    HasFirst(s, e, " ");
    JoinFirst(ws[1..]);
    HasFirst(s, n, rest);
    assert rest[0] == ws[1][0] && WordChar(ws[1][0]);
    hide Has, Join, Word, Line;
    BlanksNone(s, n);
    assert SkipBlanks(s, e) == n;
    WordToken(s, p, w);
    NoRedirs(s, n, []);
    BlanksNone(s, p);
  }

  lemma ArgsStep(s: string, p: nat, args: seq<Span>, w: Span, n: nat)
    requires p <= |s| && n <= |s| && !PeekAt(s, p, {'|', ')', '&', ';'}) && NextToken(s, p) == Token('a', w.q, w.eq, n)
    requires |args| + 1 < MAXARGS && RedirsFrom(s, n, []) == Ok(Redirs([], n))
    ensures ArgsFrom(s, p, args, []) == ArgsFrom(s, n, args + [w], [])
  {
    var rs: seq<Redirection<Span>> := [];
    assert rs + [] == rs;
  }

  lemma ArgsLast(s: string, p: nat, args: seq<Span>, w: Span, n: nat, list: seq<Redirection<Span>>, end: nat)
    requires p <= |s| && n <= |s| && !PeekAt(s, p, {'|', ')', '&', ';'}) && NextToken(s, p) == Token('a', w.q, w.eq, n)
    requires |args| + 1 < MAXARGS && RedirsFrom(s, n, []) == Ok(Redirs(list, end)) && Follows(s, end, 3)
    ensures ArgsFrom(s, p, args, []) == Ok(Parsed(Wrap(Exec(args + [w]), list), end))
  {
    assert [] + list == list;
    ArgsEnd(s, end, args + [w], list);
  }

  lemma ArgsEnd(s: string, p: nat, args: seq<Span>, rs: seq<Redirection<Span>>)
    requires Follows(s, p, 3)
    ensures ArgsFrom(s, p, args, rs) == Ok(Parsed(Wrap(Exec(args), rs), p))
  {
    BlanksNone(s, p);
  }

  lemma WordsStart(s: string, p: nat, ws: seq<string>, tail: string)
    requires ws != [] && Word(ws[0]) && Has(s, p, Join(ws) + tail)
    ensures p < |s| && WordChar(s[p])
  {
    JoinFirst(ws);
    HasFirst(s, p, Join(ws) + tail);
  }

  /** A simple command: words, then redirections. */
  lemma SimpleOf(s: string, p: nat, ws: seq<string>, rs: seq<Redirection<string>>) returns (t: Cmd<Span>)
    requires Line(s) && Has(s, p, Join(ws) + ShowRedirs(rs)) && Follows(s, p + |Join(ws) + ShowRedirs(rs)|, 3)
    requires Printable(Exec(ws)) && (forall k :: 0 <= k < |rs| ==> Word(rs[k].file))
    ensures ExecAt(s, p) == Ok(Parsed(t, p + |Join(ws) + ShowRedirs(rs)|)) && Text(s, t) == Wrap(Exec(ws), rs)
  {
    hide Has, Word, Line, ArgsFrom, RedirsFrom, SkipBlanks, ShowRedirs, Wrap, Slices;
    var spans, list;
    if ws == [] {
      assert Join(ws) + ShowRedirs(rs) == ShowRedirs(rs);
      spans := [];
      list := RedirsOf(s, p, rs);
      RedirStart(s, p, rs);
      BlanksNone(s, p);
      ArgsEnd(s, p + |ShowRedirs(rs)|, [], list);
      NoSlices(s);
    } else {
      hide Join;
      WordsStart(s, p, ws, ShowRedirs(rs));
      BlanksNone(s, p);
      NoRedirs(s, p, []);
      spans, list := ArgsOf(s, p, ws, rs, []);
      assert [] + spans == spans;
    }
    t := Wrap(Exec(spans), list);
    TextWrap(s, Exec(spans), list);
  }

  lemma NoSlices(s: string)
    ensures Slices(s, []) == []
  {
  }

  lemma {:induction false} RedirStart(s: string, x: nat, rs: seq<Redirection<string>>)
    requires Has(s, x, ShowRedirs(rs)) && Follows(s, x + |ShowRedirs(rs)|, 3)
    ensures At(s, x) != '('
    decreases |rs|
  {
    if rs != [] {
      var most, r := rs[..|rs| - 1], rs[|rs| - 1];
      HasParts(s, x, ShowRedirs(most), [Op(r.mode)] + r.file);
      if most != [] {
        FirstRedir(most);
        HasFirst(s, x, ShowRedirs(most));
      } else {
        HasFirst(s, x, [Op(r.mode)] + r.file);
      }
    }
  }

  lemma {:induction false} FirstRedir(rs: seq<Redirection<string>>)
    requires rs != []
    ensures ShowRedirs(rs) != "" && ShowRedirs(rs)[0] in {'<', '>'}
  {
    if |rs| > 1 { FirstRedir(rs[..|rs| - 1]); }
  }

  // ---------------------------------------------------------------- blocks

  /** A printed command does not start with a blank, nor does what follows an empty one. */
  lemma ShowStart(s: string, p: nat, c: Cmd<string>, level: nat)
    requires Printable(c) && Has(s, p, Show(c, level)) && Follows(s, p + |Show(c, level)|, 3)
    ensures p <= |s| && !Blank(At(s, p))
  {
    if Show(c, level) != "" {
      ShowFirst(c, level);
      HasFirst(s, p, Show(c, level));
    }
  }

  lemma {:induction false} ShowFirst(c: Cmd<string>, level: nat)
    requires Printable(c) && Show(c, level) != ""
    ensures !Blank(Show(c, level)[0])
    decreases c, if Level(c) < level then 1 else 0
  {
    if Level(c) >= level {
      match c
      case Exec(ws) =>
        assert Word(ws[0]);
        JoinFirst(ws);
      case Redir(d, _, _) => if Show(d, 3) != "" { ShowFirst(d, 3); }
      case Pipe(l, _) => if Show(l, 3) != "" { ShowFirst(l, 3); }
      case Back(d) => if Show(d, 1) != "" { ShowFirst(d, 1); }
      case List(l, _) => if Show(l, 1) != "" { ShowFirst(l, 1); }
    }
  }

  /** A parenthesised command is parsed as its inside, then the redirections after it. */
  lemma BlockOf(s: string, p: nat, w: string, t: Cmd<Span>, x: nat)
    requires Has(s, p, "(" + w + ")") && x == p + |w| + 2 && !Blank(At(s, x)) && !Blank(At(s, p + 1))
    requires LineAt(s, p + 1) == Ok(Parsed(t, x - 1))
    ensures ExecAt(s, p) == var rs := RedirsFrom(s, x, []);
                            if rs.Err? then Err(rs.error) else Ok(Parsed(Wrap(t, rs.value.list), rs.value.next))
  {
    hide LineAt, RedirsFrom, NextToken, SkipBlanks;
    Bracketed(s, p, w);
    BlanksNone(s, p);
    SymbolToken(s, p);
    BlanksNone(s, x - 1);
    SymbolToken(s, x - 1);
    assert BlockAt(s, p) == var rs := RedirsFrom(s, x, []);
                            if rs.Err? then Err(rs.error) else Ok(Parsed(Wrap(t, rs.value.list), rs.value.next));
  }

  lemma Bracketed(s: string, p: nat, w: string)
    requires Has(s, p, "(" + w + ")")
    ensures p + |w| + 1 < |s| && s[p] == '(' && Has(s, p + 1, w) && s[p + |w| + 1] == ')'
  {
    assert "(" + w + ")" == "(" + (w + ")");
    HasParts(s, p, "(", w + ")");
    HasParts(s, p + 1, w, ")");
    HasFirst(s, p, "(");
    HasFirst(s, p + 1 + |w|, ")");
  }

  lemma ShowBlock(c: Cmd<string>)
    requires Level(c) < 3
    ensures Show(c, 3) == "(" + Show(c, 0) + ")"
  {
  }

  // ---------------------------------------------------------------- the four levels

  /** parseexec reads a command printed at level 3. */
  lemma {:induction false} ExecOf(s: string, p: nat, c: Cmd<string>) returns (t: Cmd<Span>)
    requires Line(s) && Printable(c) && Has(s, p, Show(c, 3)) && Follows(s, p + |Show(c, 3)|, 3)
    ensures ExecAt(s, p) == Ok(Parsed(t, p + |Show(c, 3)|)) && Text(s, t) == c
    decreases c, if Level(c) < 3 then 4 else 0
  {
    hide Has, Line, LineAt, ExecAt, RedirsFrom, Word, Wrap, Show, ShowRedirs, Join;
    var b, rs := Base(c), Around(c);
    ShowAround(c);
    if b.Exec? {
      assert Show(b, 3) == Join(b.args) by { ShowWords(b.args); }
      t := SimpleOf(s, p, b.args, rs);
    } else {
      ShowBlock(b);
      HasParts(s, p, Show(b, 3), ShowRedirs(rs));
      var x := p + |Show(b, 3)|;
      var list := RedirsOf(s, x, rs);
      Bracketed(s, p, Show(b, 0));
      ShowStart(s, p + 1, b, 0);
      var inner := LineOf(s, p + 1, b);
      BlockOf(s, p, Show(b, 0), inner, x);
      t := Wrap(inner, list);
      TextWrap(s, inner, list);
    }
  }

  lemma ShowWords(ws: seq<string>)
    ensures Show(Exec(ws), 3) == Join(ws)
  {
  }

  /** parsepipe reads a command printed at level 2: | binds to the right. */
  lemma {:induction false} PipeOf(s: string, p: nat, c: Cmd<string>) returns (t: Cmd<Span>)
    requires Line(s) && Printable(c) && Has(s, p, Show(c, 2)) && Follows(s, p + |Show(c, 2)|, 2)
    ensures PipeAt(s, p) == Ok(Parsed(t, p + |Show(c, 2)|)) && Text(s, t) == c
    decreases c, if Level(c) < 2 then 5 else 1
  {
    hide Has, Line, ExecAt, Word, NextToken;
    var e := p + |Show(c, 2)|;
    if c.Pipe? {
      var x := p + |Show(c.left, 3)|;
      assert Show(c, 2) == Show(c.left, 3) + ("|" + Show(c.right, 2));
      HasParts(s, p, Show(c.left, 3), "|" + Show(c.right, 2));
      HasParts(s, x, "|", Show(c.right, 2));
      HasFirst(s, x, "|");
      hide Show;
      ShowStart(s, x + 1, c.right, 2);
      var l := ExecOf(s, p, c.left);
      var r := PipeOf(s, x + 1, c.right);
      t := Pipe(l, r);
      Piped(s, p, l, x, r, e);
    } else {
      assert Show(c, 2) == Show(c, 3);
      hide Show;
      t := ExecOf(s, p, c);
      BlanksNone(s, e);
    }
  }

  lemma Piped(s: string, p: nat, l: Cmd<Span>, x: nat, r: Cmd<Span>, e: nat)
    requires p <= x < |s| && s[x] == '|' && !Blank(At(s, x + 1))
    requires ExecAt(s, p) == Ok(Parsed(l, x)) && PipeAt(s, x + 1) == Ok(Parsed(r, e))
    ensures PipeAt(s, p) == Ok(Parsed(Pipe(l, r), e))
  {
    hide ExecAt, NextToken;
    BlanksNone(s, x);
    SymbolToken(s, x);
  }

  /** parsepipe and parseline's loop read a command printed at level 1: & binds looser than |. */
  lemma {:induction false} BackOf(s: string, p: nat, c: Cmd<string>) returns (t: Cmd<Span>, first: Parsed)
    requires Line(s) && Printable(c) && Has(s, p, Show(c, 1)) && Follows(s, p + |Show(c, 1)|, 2)
    ensures PipeAt(s, p) == Ok(first) && first.next <= |s| && Text(s, t) == c
    ensures BacksFrom(s, first.next, first.cmd) == BacksFrom(s, p + |Show(c, 1)|, t)
    decreases c, if Level(c) < 1 then 6 else 2
  {
    hide Has, Line, PipeAt, Word, NextToken, BacksFrom;
    var e := p + |Show(c, 1)|;
    if c.Back? {
      var x := p + |Show(c.cmd, 1)|;
      assert Show(c, 1) == Show(c.cmd, 1) + "&";
      HasParts(s, p, Show(c.cmd, 1), "&");
      HasFirst(s, x, "&");
      hide Show;
      var d;
      d, first := BackOf(s, p, c.cmd);
      t := Back(d);
      Backed(s, x, d);
    } else {
      assert Show(c, 1) == Show(c, 2);
      hide Show;
      t := PipeOf(s, p, c);
      first := Parsed(t, e);
    }
  }

  lemma Backed(s: string, x: nat, t: Cmd<Span>)
    requires x < |s| && s[x] == '&' && !Blank(At(s, x + 1))
    ensures BacksFrom(s, x, t) == BacksFrom(s, x + 1, Back(t))
  {
    hide NextToken;
    BlanksNone(s, x);
    SymbolToken(s, x);
  }

  /** parseline reads a printed command wherever it stands: ; binds loosest, and to the right. */
  lemma {:induction false} LineOf(s: string, p: nat, c: Cmd<string>) returns (t: Cmd<Span>)
    requires Line(s) && Printable(c) && Has(s, p, Show(c, 0)) && Follows(s, p + |Show(c, 0)|, 0)
    ensures LineAt(s, p) == Ok(Parsed(t, p + |Show(c, 0)|)) && Text(s, t) == c
    decreases c, 3
  {
    hide Has, Line, PipeAt, Word, NextToken, BacksFrom, LineAt, Text;
    var e := p + |Show(c, 0)|;
    if c.List? {
      var x := p + |Show(c.left, 1)|;
      assert Show(c, 0) == Show(c.left, 1) + (";" + Show(c.right, 0));
      HasParts(s, p, Show(c.left, 1), ";" + Show(c.right, 0));
      HasParts(s, x, ";", Show(c.right, 0));
      HasFirst(s, x, ";");
      hide Show;
      ShowStart(s, x + 1, c.right, 0);
      var l, first := BackOf(s, p, c.left);
      var r := LineOf(s, x + 1, c.right);
      t := List(l, r);
      ListText(s, l, r);
      NoBacks(s, x, l);
      Listed(s, p, first, l, x, r, e);
    } else {
      assert Show(c, 0) == Show(c, 1);
      hide Show;
      var first;
      t, first := BackOf(s, p, c);
      NoBacks(s, e, t);
      Unlisted(s, p, first, t, e);
    }
  }

  lemma Unlisted(s: string, p: nat, first: Parsed, t: Cmd<Span>, e: nat)
    requires p <= |s| && PipeAt(s, p) == Ok(first) && first.next <= |s| && BacksFrom(s, first.next, first.cmd) == Parsed(t, e) && Follows(s, e, 0)
    ensures LineAt(s, p) == Ok(Parsed(t, e))
  {
    hide PipeAt, NextToken, BacksFrom;
    BlanksNone(s, e);
  }

  lemma ListText(s: string, l: Cmd<Span>, r: Cmd<Span>)
    ensures Text(s, List(l, r)) == List(Text(s, l), Text(s, r))
  {
  }

  lemma NoBacks(s: string, e: nat, t: Cmd<Span>)
    requires Follows(s, e, 1)
    ensures BacksFrom(s, e, t) == Parsed(t, e)
  {
    BlanksNone(s, e);
  }

  lemma Listed(s: string, p: nat, first: Parsed, l: Cmd<Span>, x: nat, r: Cmd<Span>, e: nat)
    requires p <= x < |s| && s[x] == ';' && !Blank(At(s, x + 1)) && PipeAt(s, p) == Ok(first) && first.next <= |s|
    requires BacksFrom(s, first.next, first.cmd) == Parsed(l, x) && LineAt(s, x + 1) == Ok(Parsed(r, e))
    ensures LineAt(s, p) == Ok(Parsed(List(l, r), e))
  {
    hide PipeAt, NextToken, BacksFrom;
    BlanksNone(s, x);
    SymbolToken(s, x);
  }

  // ---------------------------------------------------------------- whole lines

  lemma {:induction false} ShowLine(c: Cmd<string>, level: nat)
    requires Printable(c)
    ensures Line(Show(c, level))
    decreases c, if Level(c) < level then 1 else 0
  {
    if Level(c) < level {
      ShowLine(c, 0);
    } else {
      match c
      case Exec(ws) => JoinLine(ws);
      case Redir(d, file, _) => ShowLine(d, 3);
      case Pipe(l, r) => ShowLine(l, 3); ShowLine(r, 2);
      case Back(d) => ShowLine(d, 1);
      case List(l, r) => ShowLine(l, 1); ShowLine(r, 0);
    }
  }

  lemma {:induction false} JoinLine(ws: seq<string>)
    requires forall k :: 0 <= k < |ws| ==> Word(ws[k])
    ensures Line(Join(ws))
  {
    if ws != [] {
      assert Word(ws[0]);
      JoinLine(ws[1..]);
    }
  }

  /** Any writable command tree, printed and parsed, comes back as itself. */
  lemma RoundTrip(c: Cmd<string>)
    requires Printable(c)
    ensures ParseLine(Print(c)).Ok? && Text(Print(c), ParseLine(Print(c)).value) == c
  {
    hide LineAt, Show;
    var s := Print(c);
    ShowLine(c, 0);
    assert Has(s, 0, s);
    var t := LineOf(s, 0, c);
  }
}
