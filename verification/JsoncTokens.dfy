/** When stripping comments keeps a document's tokens apart (section 2 of RFC 8259): a block comment
    is dropped without leaving a blank, so what stood on either side of it can run together. */
module JsoncTokens {
  import opened Jsonc

  predicate IsBlank(c: char) { c == ' ' || c == '\t' || c == '\n' || c == '\r' }

  predicate IsStructural(c: char) { c == '{' || c == '}' || c == '[' || c == ']' || c == ':' || c == ',' }

  /** A piece of a number or of one of the literal names. */
  predicate InAtom(p: Piece) { p.Other? && !IsBlank(p.c) && !IsStructural(p.c) }

  datatype Token = Atom(text: string) | Mark(c: char) | Quoted(p: Piece)

  function Flush(cur: string): seq<Token> { if cur == "" then [] else [Atom(cur)] }

  /** The tokens of a document in which every comment separates, `cur` being the atom read so far. */
  function Reading(ps: seq<Piece>, cur: string): seq<Token> {
    if ps == [] then Flush(cur)
    else if InAtom(ps[0]) then Reading(ps[1..], cur + [ps[0].c])
    else Flush(cur) + Emitted(ps[0]) + Reading(ps[1..], "")
  }

  function Emitted(p: Piece): seq<Token> {
    match p
    case Literal(_, _) => [Quoted(p)]
    case Other(c) => if IsStructural(c) then [Mark(c)] else []
    case _ => []
  }

  /** Two characters of atoms with nothing but block comments between them, and at least one. */
  ghost predicate Glued(ps: seq<Piece>) {
    exists i, j :: GluedAt(ps, i, j)
  }

  ghost predicate GluedAt(ps: seq<Piece>, i: int, j: int) {
    && 0 <= i && i + 1 < j < |ps| && InAtom(ps[i]) && InAtom(ps[j])
    && forall k :: i < k < j ==> ps[k].Block?
  }

  // ---------------------------------------------------------------- counting the joints

  /** What was read last: no atom, an atom, or an atom and then block comments. */
  datatype After = Apart | Touching | Commented

  function Next(after: After, p: Piece): After {
    if InAtom(p) then Touching
    else if p.Block? && after != Apart then Commented
    else Apart
  }

  function Joint(after: After, p: Piece): nat { if after == Commented && InAtom(p) then 1 else 0 }

  function Joints(ps: seq<Piece>, after: After): nat {
    if ps == [] then 0 else Joint(after, ps[0]) + Joints(ps[1..], Next(after, ps[0]))
  }

  /** The atom begun in the original (`cur`) and in the stripped text (`kept`) at the same place. */
  ghost predicate Fits(after: After, cur: string, kept: string) {
    match after
    case Apart => cur == "" && kept == ""
    case Touching => cur != "" && kept != ""
    case Commented => cur == "" && kept != ""
  }

  lemma KeptStep(ps: seq<Piece>, kept: string)
    requires ps != []
    ensures var p, rest := ps[0], ps[1..];
            Reading(Kept(ps), kept) ==
              if InAtom(p) then Reading(Kept(rest), kept + [p.c])
              else if p.Block? || (p.Line? && !p.closed) then Reading(Kept(rest), kept)
              else Flush(kept) + Emitted(p) + Reading(Kept(rest), "")
  {
    var p, rest := ps[0], Kept(ps[1..]);
    match p {
      case Line(_, closed) =>
        if closed {
          assert ([Other('\n')] + rest)[1..] == rest;
          assert Emitted(Other('\n')) == Emitted(p) == [];
        } else {
          assert [] + rest == rest;
        }
      case Block(_, _) => assert [] + rest == rest;
      case _ => assert ([p] + rest)[1..] == rest;
    }
  }

  /** Each joint costs the stripped text one token. */
  lemma {:induction false} JointsCount(ps: seq<Piece>, after: After, cur: string, kept: string)
    requires Tokens(ps) && Fits(after, cur, kept)
    ensures |Reading(ps, cur)| + (if after == Commented then 1 else 0) == |Reading(Kept(ps), kept)| + Joints(ps, after)
  {
    hide Kept, PieceOk;
    if ps == [] {
      assert Kept(ps) == [] by { NothingKept(); }
    } else {
      var p, rest := ps[0], ps[1..];
      KeptStep(ps, kept);
      if InAtom(p) {
        JointsCount(rest, Touching, cur + [p.c], kept + [p.c]);
      } else if p.Block? {
        JointsCount(rest, Next(after, p), "", kept);
      } else if p.Line? && !p.closed {
        assert rest == [] && Kept(rest) == [] by { NothingKept(); }
      } else {
        JointsCount(rest, Apart, "", "");
      }
    }
  }

  lemma NothingKept()
    ensures Kept([]) == []
  {
  }

  /** The atom the original has already finished and the stripped text has not. */
  function Owed(after: After, kept: string): seq<Token> { if after == Commented then [Atom(kept)] else [] }

  ghost predicate Agrees(after: After, cur: string, kept: string) {
    Fits(after, cur, kept) && (after == Touching ==> cur == kept)
  }

  lemma ReadStep(ps: seq<Piece>, cur: string)
    requires ps != []
    ensures Reading(ps, cur) == if InAtom(ps[0]) then Reading(ps[1..], cur + [ps[0].c])
                                else Flush(cur) + Emitted(ps[0]) + Reading(ps[1..], "")
  {
  }

  lemma BreakAgrees(after: After, cur: string, kept: string, e: seq<Token>, rest: seq<Token>)
    requires Agrees(after, cur, kept)
    ensures Flush(kept) + e + rest == Owed(after, kept) + (Flush(cur) + e + rest)
  {
    assert [Atom(kept)] + e + rest == [Atom(kept)] + ([] + e + rest);
    assert [] + (Flush(cur) + e + rest) == Flush(cur) + e + rest;
  }

  lemma CommentAgrees(after: After, cur: string, kept: string, p: Piece, rest: seq<Token>)
    requires Agrees(after, cur, kept) && p.Block?
    ensures Agrees(Next(after, p), "", kept)
    ensures Owed(Next(after, p), kept) + rest == Owed(after, kept) + (Flush(cur) + Emitted(p) + rest)
  {
    assert [] + [] + rest == rest && [] + rest == rest;
    assert [] + (Flush(cur) + [] + rest) == Flush(cur) + rest;
  }

  lemma EndAgrees(after: After, cur: string, kept: string, e: seq<Token>)
    requires Agrees(after, cur, kept) && e == []
    ensures Flush(kept) == Owed(after, kept) + (Flush(cur) + e + Reading([], ""))
    ensures Flush(kept) == Owed(after, kept) + Reading([], cur)
  {
  }

  /** Without joints the stripped text has the same tokens. */
  lemma {:induction false} SameWithoutJoints(ps: seq<Piece>, after: After, cur: string, kept: string)
    requires Tokens(ps) && Agrees(after, cur, kept) && Joints(ps, after) == 0
    ensures Reading(Kept(ps), kept) == Owed(after, kept) + Reading(ps, cur)
  {
    hide Kept, PieceOk, Reading, Flush, Emitted, Owed;
    if ps == [] {
      NothingKept();
      ReadNothing(kept);
      EndAgrees(after, cur, kept, []);
    } else {
      var p, rest := ps[0], ps[1..];
      KeptStep(ps, kept);
      ReadStep(ps, cur);
      if InAtom(p) {
        SameWithoutJoints(rest, Touching, cur + [p.c], kept + [p.c]);
        NothingOwed(after, kept, Reading(ps, cur));
        NothingOwed(Touching, kept + [p.c], Reading(ps, cur));
      } else if p.Block? {
        CommentAgrees(after, cur, kept, p, Reading(rest, ""));
        SameWithoutJoints(rest, Next(after, p), "", kept);
      } else if p.Line? && !p.closed {
        NothingKept();
        ReadNothing(kept);
        NothingEmitted(p);
        EndAgrees(after, cur, kept, Emitted(p));
      } else {
        SameWithoutJoints(rest, Apart, "", "");
        NothingOwed(Apart, "", Reading(rest, ""));
        BreakAgrees(after, cur, kept, Emitted(p), Reading(rest, ""));
      }
    }
  }

  lemma ReadNothing(cur: string)
    ensures Reading([], cur) == Flush(cur)
  {
  }

  lemma NothingEmitted(p: Piece)
    requires p.Line? || p.Block?
    ensures Emitted(p) == []
  {
  }

  lemma NothingOwed(after: After, kept: string, tokens: seq<Token>)
    requires after != Commented
    ensures Owed(after, kept) + tokens == tokens
  {
  }

  // ---------------------------------------------------------------- joints and the condition

  /** The text goes on with an atom after at least `n` pieces, all of them block comments. */
  ghost predicate Leads(ps: seq<Piece>, n: nat) {
    exists j :: LeadsAt(ps, n, j)
  }

  ghost predicate LeadsAt(ps: seq<Piece>, n: nat, j: int) {
    n <= j < |ps| && InAtom(ps[j]) && forall k :: 0 <= k < j ==> ps[k].Block?
  }

  lemma LeadsStep(ps: seq<Piece>, n: nat)
    requires ps != []
    ensures Leads(ps, n) <==> (n == 0 && InAtom(ps[0])) || (ps[0].Block? && Leads(ps[1..], if n == 0 then 0 else n - 1))
  {
    var m := if n == 0 then 0 else n - 1;
    if Leads(ps, n) {
      var j :| LeadsAt(ps, n, j);
      if j > 0 { assert LeadsAt(ps[1..], m, j - 1); }
    }
    if n == 0 && InAtom(ps[0]) { assert LeadsAt(ps, 0, 0); }
    if ps[0].Block? && Leads(ps[1..], m) {
      var j :| LeadsAt(ps[1..], m, j);
      assert LeadsAt(ps, n, j + 1);
    }
  }

  lemma GluedStep(ps: seq<Piece>)
    requires ps != []
    ensures Glued(ps) <==> Glued(ps[1..]) || (InAtom(ps[0]) && Leads(ps[1..], 1))
  {
    var rest := ps[1..];
    if Glued(ps) {
      var i, j :| GluedAt(ps, i, j);
      if i > 0 {
        assert GluedAt(rest, i - 1, j - 1);
      } else {
        assert LeadsAt(rest, 1, j - 1);
      }
    }
    if Glued(rest) {
      var i, j :| GluedAt(rest, i, j);
      assert GluedAt(ps, i + 1, j + 1);
    }
    if InAtom(ps[0]) && Leads(rest, 1) {
      var j :| LeadsAt(rest, 1, j);
      assert GluedAt(ps, 0, j + 1);
    }
  }

  lemma {:induction false} JointsIff(ps: seq<Piece>, after: After)
    ensures Joints(ps, after) > 0 <==>
              || Glued(ps)
              || (after == Touching && Leads(ps, 1))
              || (after == Commented && Leads(ps, 0))
  {
    if ps == [] {
    } else {
      var p, rest := ps[0], ps[1..];
      JointsIff(rest, Next(after, p));
      GluedStep(ps);
      LeadsStep(ps, 0);
      LeadsStep(ps, 1);
      hide Glued, Leads, InAtom;
      LeadsLess(rest);
    }
  }

  lemma LeadsLess(ps: seq<Piece>)
    ensures Leads(ps, 1) ==> Leads(ps, 0)
  {
    if Leads(ps, 1) {
      var j :| LeadsAt(ps, 1, j);
      assert LeadsAt(ps, 0, j);
    }
  }

  // ---------------------------------------------------------------- main results

  /** Stripping keeps the tokens of a document if and only if no block comment alone separates two
      of its atoms. */
  lemma TokensKeptIff(s: string)
    ensures Reading(Lex(Strip(s)), "") == Reading(Lex(s), "") <==> !Glued(Lex(s))
  {
    hide Kept, Strip, Lex, Tokens, Glued, Reading;
    LexReads(s);
    StrippedReads(s);
    JointsIff(Lex(s), Apart);
    JointsCount(Lex(s), Apart, "", "");
    if Joints(Lex(s), Apart) == 0 {
      SameWithoutJoints(Lex(s), Apart, "", "");
      assert [] + Reading(Lex(s), "") == Reading(Lex(s), "");
    }
  }

  /** One piece in front of a text already read. */
  lemma InFront(p: Piece, ps: seq<Piece>)
    requires Tokens(ps) && PieceOk(p) && !Ends(p) && (p.Other? ==> !StartsComment([p.c] + Render(ps)))
    ensures Tokens([p] + ps) && Render([p] + ps) == Text(p) + Render(ps)
    ensures RenderKept([p] + ps) == KeptText(p) + RenderKept(ps)
  {
    assert ([p] + ps)[1..] == ps;
  }

  /** The failing side made concrete: `1`, an empty block comment and `2` become the number 12. */
  lemma CommentIsNoSeparator()
    ensures Strip("1/**/2") == "12" && Glued(Lex("1/**/2"))
  {
    hide Tokens, Render, RenderKept, Strip, Lex;
    var one, gap, two := Other('1'), Block("", true), Other('2');
    var ps := [one] + ([gap] + ([two] + []));
    assert Tokens([]) && Render([]) == "" && RenderKept([]) == "" by { Nothing(); }
    InFront(two, []);
    InFront(gap, [two] + []);
    InFront(one, [gap] + ([two] + []));
    assert Render(ps) == "1" + ("/*" + "" + "*/" + ("2" + "")) == "1/**/2";
    assert RenderKept(ps) == "1" + ("" + ("2" + "")) == "12";
    StripTokens(ps);
    LexIsUnique(ps);
    assert ps == [one, gap, two];
    assert GluedAt(ps, 0, 2);
  }

  lemma Nothing()
    ensures Tokens([]) && Render([]) == "" && RenderKept([]) == ""
  {
  }
}
