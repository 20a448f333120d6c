/**
 The matcher of grep.c.  A C string is modelled as the sequence of its characters
 without the terminating NUL; a char pointer into it is a suffix.
 */
module Grep {

  /** One unit of a pattern: a character, a starred character, or a final '$'. */
  datatype Atom = One(c: char) | Many(c: char) | End

  function Atoms(re: string): (atoms: seq<Atom>) {
    if re == "" then []
    else if |re| > 1 && re[1] == '*' then [Many(re[0])] + Atoms(re[2..])
    else if re == "$" then [End]
    else [One(re[0])] + Atoms(re[1..])
  }

  /** A pattern written out: '*' after a starred character, '$' for the end. */
  function Written(atoms: seq<Atom>): string {
    if atoms == [] then ""
    else (match atoms[0]
          case One(c) => [c]
          case Many(c) => [c, '*']
          case End => "$") + Written(atoms[1..])
  }

  /** Atoms that a pattern can be read as: '$' is the end only in the last place, and '*' stars what comes before it. */
  predicate Readable(atoms: seq<Atom>) {
    atoms == [] ||
    (Readable(atoms[1..]) &&
     match atoms[0]
     case One(c) => if atoms == [One(c)] then c != '$' else Written(atoms[1..])[..1] != "*"
     case Many(_) => true
     case End => atoms == [End])
  }

  /** Reading a pattern loses nothing of it. */
  lemma {:induction false} ReadWritten(re: string)
    ensures Readable(Atoms(re)) && Written(Atoms(re)) == re
  {
    if re != "" {
      if |re| > 1 && re[1] == '*' {
        ReadWritten(re[2..]);
        assert Atoms(re)[1..] == Atoms(re[2..]);
      } else if re != "$" {
        ReadWritten(re[1..]);
        assert Atoms(re)[1..] == Atoms(re[1..]);
      }
    }
  }

  /** And there is no other way to read it. */
  lemma {:induction false} WrittenRead(atoms: seq<Atom>)
    requires Readable(atoms)
    ensures Atoms(Written(atoms)) == atoms
  {
    if atoms != [] {
      WrittenRead(atoms[1..]);
      var re, rest := Written(atoms), Written(atoms[1..]);
      assert atoms == [atoms[0]] + atoms[1..];
      match atoms[0]
      case One(c) =>
        assert re[1..] == rest;
        assert rest != "" ==> rest[..1] == [rest[0]];
      case Many(c) => assert re[2..] == rest;
      case End =>
    }
  }

  predicate Fits(c: char, x: char) {
    c == '.' || c == x
  }

  /** The strings one atom stands for. */
  predicate InAtom(a: Atom, piece: string) {
    match a
    case One(c) => |piece| == 1 && Fits(c, piece[0])
    case Many(c) => forall i :: 0 <= i < |piece| ==> Fits(c, piece[i])
    case End => piece == ""
  }

  function Flatten(pieces: seq<string>): string {
    if pieces == [] then "" else pieces[0] + Flatten(pieces[1..])
  }

  /** pieces, one per atom, spell a prefix of text; all of text if the pattern ends with '$'. */
  ghost predicate Spells(atoms: seq<Atom>, text: string, pieces: seq<string>) {
    && |pieces| == |atoms|
    && (forall i :: 0 <= i < |atoms| ==> InAtom(atoms[i], pieces[i]))
    && Flatten(pieces) <= text
    && (End in atoms ==> Flatten(pieces) == text)
  }

  ghost predicate MeansHere(atoms: seq<Atom>, text: string) {
    exists pieces :: Spells(atoms, text, pieces)
  }

  /** The meaning of a whole pattern: anchored by a leading '^', else at some start position. */
  ghost predicate Means(re: string, text: string) {
    if re != "" && re[0] == '^' then MeansHere(Atoms(re[1..]), text)
    else exists k :: 0 <= k <= |text| && MeansHere(Atoms(re), text[k..])
  }

  lemma ConsSpells(a: Atom, atoms: seq<Atom>, text: string, piece: string)
    requires InAtom(a, piece) && piece <= text
    requires a == End ==> atoms == [] && piece == text
    requires MeansHere(atoms, text[|piece|..])
    ensures MeansHere([a] + atoms, text)
  {
    var rest :| Spells(atoms, text[|piece|..], rest);
    var pieces := [piece] + rest;
    assert pieces[1..] == rest;
    assert text == piece + text[|piece|..];
    assert Spells([a] + atoms, text, pieces);
  }

  lemma UnconsSpells(a: Atom, atoms: seq<Atom>, text: string) returns (piece: string)
    requires MeansHere([a] + atoms, text)
    ensures InAtom(a, piece) && piece <= text
    ensures MeansHere(atoms, text[|piece|..])
    ensures a == End && atoms == [] ==> text == ""
  {
    var pieces :| Spells([a] + atoms, text, pieces);
    piece := pieces[0];
    var rest := pieces[1..];
    assert forall i :: 0 <= i < |atoms| ==> atoms[i] == ([a] + atoms)[i + 1];
    assert piece + Flatten(rest) <= text;
    assert Flatten(rest) <= text[|piece|..];
    if End in atoms {
      assert End in [a] + atoms;
    }
    assert Spells(atoms, text[|piece|..], rest);
    if a == End && atoms == [] {
      assert Flatten(rest) == "";
      assert End in [a] + atoms;
    }
  }

  lemma EmptyMeans(text: string)
    ensures MeansHere([], text)
  {
    assert Spells([], text, []);
  }

  lemma OneMeans(c: char, atoms: seq<Atom>, text: string)
    ensures MeansHere([One(c)] + atoms, text) <==>
            text != "" && Fits(c, text[0]) && MeansHere(atoms, text[1..])
  {
    if MeansHere([One(c)] + atoms, text) {
      var piece := UnconsSpells(One(c), atoms, text);
    }
    if text != "" && Fits(c, text[0]) && MeansHere(atoms, text[1..]) {
      ConsSpells(One(c), atoms, text, text[..1]);
    }
  }

  lemma EndMeans(text: string)
    ensures MeansHere([End], text) <==> text == ""
  {
    assert [End] + [] == [End];
    if MeansHere([End], text) {
      var _ := UnconsSpells(End, [], text);
    }
    if text == "" {
      EmptyMeans("");
      ConsSpells(End, [], text, "");
    }
  }

  lemma ManyMeans(c: char, atoms: seq<Atom>, text: string)
    ensures MeansHere([Many(c)] + atoms, text) <==>
            exists k :: 0 <= k <= |text| && InAtom(Many(c), text[..k]) && MeansHere(atoms, text[k..])
  {
    if MeansHere([Many(c)] + atoms, text) {
      var piece := UnconsSpells(Many(c), atoms, text);
      assert piece == text[..|piece|];
    }
    if k :| 0 <= k <= |text| && InAtom(Many(c), text[..k]) && MeansHere(atoms, text[k..]) {
      ConsSpells(Many(c), atoms, text, text[..k]);
    }
  }

  // ---------------------------------------------------------------- what patterns mean

  /** '^' anchors the rest of the pattern at the start. */
  lemma AnchoredMeans(re: string, text: string)
    ensures Means("^" + re, text) <==> MeansHere(Atoms(re), text)
  {
    assert ("^" + re)[1..] == re;
  }

  /** '.' stands for any one character. */
  lemma DotMeans(re: string, text: string)
    requires re != "" ==> re[0] != '*'
    ensures MeansHere(Atoms("." + re), text) <==> text != "" && MeansHere(Atoms(re), text[1..])
  {
    assert ("." + re)[1..] == re && (re != "" ==> ("." + re)[1] == re[0]);
    assert Atoms("." + re) == [One('.')] + Atoms(re);
    OneMeans('.', Atoms(re), text);
  }

  /** A character without a meaning of its own. */
  predicate Plain(c: char) { c != '^' && c != '$' && c != '.' && c != '*' }

  lemma {:induction false} PlainHere(re: string, text: string)
    requires forall i :: 0 <= i < |re| ==> Plain(re[i])
    ensures MeansHere(Atoms(re), text) <==> re <= text
    decreases |re|
  {
    if re == "" {
      EmptyMeans(text);
    } else {
      assert |re| > 1 ==> Plain(re[1]);
      OneMeans(re[0], Atoms(re[1..]), text);
      if text != "" {
        PlainHere(re[1..], text[1..]);
        assert re <= text <==> re[0] == text[0] && re[1..] <= text[1..];
      }
    }
  }

  /** A pattern of plain characters is found exactly where it occurs. */
  lemma PlainMeans(re: string, text: string)
    requires forall i :: 0 <= i < |re| ==> Plain(re[i])
    ensures Means(re, text) <==> exists k :: 0 <= k <= |text| && re <= text[k..]
  {
    forall k | 0 <= k <= |text| ensures MeansHere(Atoms(re), text[k..]) <==> re <= text[k..] { PlainHere(re, text[k..]); }
    if re != "" { assert Plain(re[0]); }
  }

  // ---------------------------------------------------------------- the code

  /** match: whether re matches somewhere in text. */
  method Match(re: string, text: string) returns (found: bool)
    ensures found <==> Means(re, text)
  {
    if re != "" && re[0] == '^' {
      found := MatchHere(re[1..], text);
      return;
    }
    var t := 0;
    while true
      invariant 0 <= t <= |text|
      invariant forall k :: 0 <= k < t ==> !MeansHere(Atoms(re), text[k..])
      decreases |text| - t
    {
      found := MatchHere(re, text[t..]);
      if found { return; }
      if t == |text| { break; }
      t := t + 1;
    }
    found := false;
  }

  /** matchhere: whether re matches a prefix of text. */
  method MatchHere(re: string, text: string) returns (found: bool)
    ensures found <==> MeansHere(Atoms(re), text)
    decreases |re|, 0
  {
    if re == "" {
      EmptyMeans(text);
      found := true;
    } else if |re| > 1 && re[1] == '*' {
      found := MatchStar(re[0], re[2..], text);
    } else if re == "$" {
      EndMeans(text);
      found := text == "";
    } else {
      OneMeans(re[0], Atoms(re[1..]), text);
      if text != "" && (re[0] == '.' || re[0] == text[0]) {
        found := MatchHere(re[1..], text[1..]);
      } else {
        found := false;
      }
    }
  }

  /** matchstar: whether a prefix of text is a run of c followed by a match of re. */
  method MatchStar(c: char, re: string, text: string) returns (found: bool)
    ensures found <==> MeansHere([Many(c)] + Atoms(re), text)
    decreases |re|, 1
  {
    ManyMeans(c, Atoms(re), text);
    var t := 0;
    while true
      invariant 0 <= t <= |text|
      invariant InAtom(Many(c), text[..t])
      invariant forall k :: 0 <= k < t ==> !MeansHere(Atoms(re), text[k..])
      decreases |text| - t
    {
      found := MatchHere(re, text[t..]);
      if found { return; }
      if t == |text| || !(text[t] == c || c == '.') { break; }
      t := t + 1;
    }
    assert forall k :: t < k <= |text| ==> text[..k][t] == text[t];
    found := false;
  }
}
