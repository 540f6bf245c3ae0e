/** Stripping comments from JSON-with-comments text, against a reading of the text as tokens:
    string literals (section 7 of RFC 8259), line comments, block comments and other characters. */
module Jsonc {

  // ---------------------------------------------------------------- tokens

  /** A piece of text. An unclosed piece runs to the end of the text. */
  datatype Piece =
    | Literal(body: string, closed: bool)
    | Line(body: string, closed: bool)
    | Block(body: string, closed: bool)
    | Other(c: char)

  function Text(p: Piece): string {
    match p
    case Literal(body, closed) => "\"" + body + if closed then "\"" else ""
    case Line(body, closed) => "//" + body + if closed then "\n" else ""
    case Block(body, closed) => "/*" + body + if closed then "*/" else ""
    case Other(c) => [c]
  }

  /** Comments go; the newline that ends a line comment stays. */
  function KeptText(p: Piece): string {
    match p
    case Line(_, closed) => if closed then "\n" else ""
    case Block(_, _) => ""
    case _ => Text(p)
  }

  function Render(ps: seq<Piece>): string {
    if ps == [] then "" else Text(ps[0]) + Render(ps[1..])
  }

  function RenderKept(ps: seq<Piece>): string {
    if ps == [] then "" else KeptText(ps[0]) + RenderKept(ps[1..])
  }

  /** Inside a literal: escape pairs, and characters that are neither quote nor backslash. */
  ghost predicate LiteralBody(s: string, closed: bool) {
    if s == "" then true
    else if s[0] == '\\' then (if |s| == 1 then !closed else LiteralBody(s[2..], closed))
    else s[0] != '"' && LiteralBody(s[1..], closed)
  }

  ghost predicate NoBlockEnd(s: string) {
    forall i :: 0 <= i < |s| - 1 ==> !(s[i] == '*' && s[i + 1] == '/')
  }

  ghost predicate PieceOk(p: Piece) {
    match p
    case Literal(body, closed) => LiteralBody(body, closed)
    case Line(body, _) => '\n' !in body
    case Block(body, _) => NoBlockEnd(body)
    case Other(c) => c != '"'
  }

  predicate Ends(p: Piece) { !p.Other? && !p.closed }

  predicate StartsComment(s: string) { |s| >= 2 && s[0] == '/' && (s[1] == '/' || s[1] == '*') }

  /** Pieces that read back as themselves: only the last may be unclosed, and a lone slash must not
      meet a slash or a star. */
  ghost predicate Tokens(ps: seq<Piece>) {
    ps == [] ||
    (&& PieceOk(ps[0]) && Tokens(ps[1..])
     && (Ends(ps[0]) ==> |ps| == 1)
     && (ps[0].Other? ==> !StartsComment(Render(ps))))
  }

  // ---------------------------------------------------------------- reading tokens

  /** Length of a literal's body, counted from after the opening quote. */
  function LiteralLength(s: string): (n: nat)
    ensures n <= |s|
  {
    if s == "" || s[0] == '"' then 0
    else if s[0] == '\\' then (if |s| == 1 then 1 else 2 + LiteralLength(s[2..]))
    else 1 + LiteralLength(s[1..])
  }

  function LineLength(s: string): (n: nat)
    ensures n <= |s|
  {
    if s == "" || s[0] == '\n' then 0 else 1 + LineLength(s[1..])
  }

  function BlockLength(s: string): (n: nat)
    ensures n <= |s| && (n < |s| ==> n + 2 <= |s|)
  {
    if |s| >= 2 && s[0] == '*' && s[1] == '/' then 0
    else if |s| <= 1 then |s|
    else 1 + BlockLength(s[1..])
  }

  function FirstPiece(s: string): Piece
    requires s != ""
  {
    if s[0] == '"' then var n := LiteralLength(s[1..]); Literal(s[1..][..n], n < |s[1..]|)
    else if StartsComment(s) && s[1] == '/' then var n := LineLength(s[2..]); Line(s[2..][..n], n < |s[2..]|)
    else if StartsComment(s) then var n := BlockLength(s[2..]); Block(s[2..][..n], n < |s[2..]|)
    else Other(s[0])
  }

  lemma {:induction false} LiteralLengthIsBody(s: string)
    ensures var n := LiteralLength(s);
            LiteralBody(s[..n], n < |s|) && (n < |s| ==> s[n] == '"')
  {
    if s != "" && s[0] == '\\' && |s| > 1 {
      LiteralLengthIsBody(s[2..]);
      assert s[..LiteralLength(s)][2..] == s[2..][..LiteralLength(s[2..])];
    } else if s != "" && s[0] != '"' && s[0] != '\\' {
      LiteralLengthIsBody(s[1..]);
      assert s[..LiteralLength(s)][1..] == s[1..][..LiteralLength(s[1..])];
    }
  }

  lemma {:induction false} LineLengthIsBody(s: string)
    ensures var n := LineLength(s);
            '\n' !in s[..n] && (n < |s| ==> s[n] == '\n')
  {
    if s != "" && s[0] != '\n' {
      LineLengthIsBody(s[1..]);
      assert s[..LineLength(s)] == [s[0]] + s[1..][..LineLength(s[1..])];
    }
  }

  lemma {:induction false} BlockLengthIsBody(s: string)
    ensures var n := BlockLength(s);
            NoBlockEnd(s[..n]) && (n < |s| ==> s[n] == '*' && s[n + 1] == '/')
  {
    if |s| >= 2 && !(s[0] == '*' && s[1] == '/') {
      BlockLengthIsBody(s[1..]);
      assert s[..BlockLength(s)] == [s[0]] + s[1..][..BlockLength(s[1..])];
    }
  }

  lemma FirstPieceFits(s: string)
    requires s != ""
    ensures var p := FirstPiece(s);
            && PieceOk(p) && 0 < |Text(p)| <= |s| && s == Text(p) + s[|Text(p)|..]
            && (Ends(p) ==> |Text(p)| == |s|)
  {
    hide LiteralLength, LineLength, BlockLength, LiteralBody, NoBlockEnd;
    if s[0] == '"' {
      LiteralLengthIsBody(s[1..]);
    } else if StartsComment(s) && s[1] == '/' {
      LineLengthIsBody(s[2..]);
    } else if StartsComment(s) {
      BlockLengthIsBody(s[2..]);
    }
  }

  function Lex(s: string): seq<Piece> {
    if s == "" then []
    else
      FirstPieceFits(s);
      [FirstPiece(s)] + Lex(s[|Text(FirstPiece(s))|..])
  }

  /** Every text is the rendering of well-formed tokens. */
  lemma {:induction false} LexReads(s: string)
    ensures Tokens(Lex(s)) && Render(Lex(s)) == s
    decreases |s|
  {
    if s == "" {
    } else {
      FirstPieceFits(s);
      var rest := s[|Text(FirstPiece(s))|..];
      LexReads(rest);
      assert Lex(s)[1..] == Lex(rest);
    }
  }

  // ---------------------------------------------------------------- tokens read back as themselves

  lemma {:induction false} LiteralReads(body: string, r: string)
    requires LiteralBody(body, true) && (r == "" || r[0] == '"')
    ensures LiteralLength(body + r) == |body|
  {
    if body == "" {
      assert body + r == r;
    } else if body[0] == '\\' {
      assert (body + r)[2..] == body[2..] + r;
      LiteralReads(body[2..], r);
    } else {
      assert (body + r)[1..] == body[1..] + r;
      LiteralReads(body[1..], r);
    }
  }

  lemma {:induction false} OpenLiteralReads(body: string)
    requires LiteralBody(body, false)
    ensures LiteralLength(body) == |body|
  {
    if body != "" && |body| > 1 && body[0] == '\\' {
      OpenLiteralReads(body[2..]);
    } else if body != "" && body[0] != '\\' {
      OpenLiteralReads(body[1..]);
    }
  }

  lemma {:induction false} LineReads(body: string, r: string)
    requires '\n' !in body && (r == "" || r[0] == '\n')
    ensures LineLength(body + r) == |body|
  {
    if body == "" {
      assert body + r == r;
    } else {
      assert (body + r)[1..] == body[1..] + r;
      LineReads(body[1..], r);
    }
  }

  lemma {:induction false} BlockReads(body: string, r: string)
    requires NoBlockEnd(body) && (r == "" || (|r| >= 2 && r[0] == '*' && r[1] == '/'))
    ensures BlockLength(body + r) == |body|
  {
    var s := body + r;
    if body == "" {
      assert s == r;
    } else if |s| > 1 {
      assert s[1..] == body[1..] + r;
      if |body| > 1 { assert s[1] == body[1]; } else { assert s[1] == r[0]; }
      BlockReads(body[1..], r);
    }
  }

  lemma Regroup(a: string, b: string, c: string)
    ensures a + (b + c) == (a + b) + c
  {
  }

  lemma TakeDrop(a: string, b: string, c: string)
    ensures (a + b + c)[|a|..] == b + c && (b + c)[..|b|] == b
  {
  }

  lemma LiteralThenRest(p: Piece, r: string)
    requires p.Literal? && PieceOk(p) && (Ends(p) ==> r == "")
    ensures FirstPiece(Text(p) + r) == p
  {
    hide NoBlockEnd, LiteralBody, LiteralLength, LineLength, BlockLength;
    var s, tail := Text(p) + r, (if p.closed then "\"" else "") + r;
    TakeDrop("\"", p.body, tail);
    Regroup("\"" + p.body, if p.closed then "\"" else "", r);
    hide Text, PieceOk;
    assert s[..1] == "\"" && s[1..] == p.body + tail;
    if p.closed {
      LiteralReads(p.body, tail);
    } else {
      assert p.body + tail == p.body;
      OpenLiteralReads(p.body);
    }
  }

  lemma LineThenRest(p: Piece, r: string)
    requires p.Line? && PieceOk(p) && (Ends(p) ==> r == "")
    ensures FirstPiece(Text(p) + r) == p
  {
    hide NoBlockEnd, LiteralBody, LiteralLength, LineLength, BlockLength;
    var s, tail := Text(p) + r, (if p.closed then "\n" else "") + r;
    TakeDrop("//", p.body, tail);
    Regroup("//" + p.body, if p.closed then "\n" else "", r);
    hide Text, PieceOk;
    assert s[..2] == "//" && s[2..] == p.body + tail;
    LineReads(p.body, tail);
  }

  lemma BlockThenRest(p: Piece, r: string)
    requires p.Block? && PieceOk(p) && (Ends(p) ==> r == "")
    ensures FirstPiece(Text(p) + r) == p
  {
    hide NoBlockEnd, LiteralBody, LiteralLength, LineLength, BlockLength;
    var s, tail := Text(p) + r, (if p.closed then "*/" else "") + r;
    TakeDrop("/*", p.body, tail);
    Regroup("/*" + p.body, if p.closed then "*/" else "", r);
    hide Text, PieceOk;
    assert s[..2] == "/*" && s[2..] == p.body + tail;
    BlockReads(p.body, tail);
  }

  lemma TextThenRest(p: Piece, r: string)
    requires PieceOk(p) && (Ends(p) ==> r == "") && (p.Other? ==> !StartsComment([p.c] + r))
    ensures FirstPiece(Text(p) + r) == p
  {
    match p {
      case Literal(_, _) => LiteralThenRest(p, r);
      case Line(_, _) => LineThenRest(p, r);
      case Block(_, _) => BlockThenRest(p, r);
      case Other(c) => assert Text(p) + r == [c] + r;
    }
  }

  lemma FirstReads(ps: seq<Piece>)
    requires Tokens(ps) && ps != []
    ensures var s, n := Render(ps), |Text(ps[0])|;
            0 < n <= |s| && FirstPiece(s) == ps[0] && s[n..] == Render(ps[1..]) && Lex(s) == [ps[0]] + Lex(s[n..])
  {
    hide FirstPiece, NoBlockEnd, LiteralBody;
    var r := Render(ps[1..]);
    if |ps| == 1 { assert r == ""; }
    TextThenRest(ps[0], r);
    assert (Text(ps[0]) + r)[|Text(ps[0])|..] == r;
  }

  /** Well-formed tokens are the only reading of their text. */
  lemma {:induction false} LexIsUnique(ps: seq<Piece>)
    requires Tokens(ps)
    ensures Lex(Render(ps)) == ps
  {
    if ps == [] {
    } else {
      assert Tokens(ps[1..]);
      hide Text, Render, FirstPiece, Tokens, Lex;
      FirstReads(ps);
      LexIsUnique(ps[1..]);
      assert ps == [ps[0]] + ps[1..];
    }
  }

  // ---------------------------------------------------------------- the state machine

  datatype Mode = Outside | InLiteral(escaped: bool) | InLine | InBlock(prev: char)

  function AfterLiteralChar(escaped: bool, c: char): Mode {
    if escaped then InLiteral(false)
    else if c == '\\' then InLiteral(true)
    else if c == '"' then Outside
    else InLiteral(false)
  }

  function StripFrom(s: string, mode: Mode): string
    decreases |s|
  {
    if s == "" then ""
    else
      var c, rest := s[0], s[1..];
      match mode
      case InLiteral(escaped) =>
        [c] + StripFrom(rest, AfterLiteralChar(escaped, c))
      case InLine => if c == '\n' then "\n" + StripFrom(rest, Outside) else StripFrom(rest, InLine)
      case InBlock(prev) =>
        if prev == '*' && c == '/' then StripFrom(rest, Outside) else StripFrom(rest, InBlock(c))
      case Outside =>
        if c == '"' then [c] + StripFrom(rest, InLiteral(false))
        else if StartsComment(s) then StripFrom(s[2..], if s[1] == '/' then InLine else InBlock('\0'))
        else [c] + StripFrom(rest, Outside)
  }

  function Strip(s: string): string { StripFrom(s, Outside) }

  /** What reading a literal's rest gives: its body and closing quote, then the text after it. */
  function Copied(s: string): string {
    var n := LiteralLength(s);
    if n < |s| then s[..n] + "\"" + StripFrom(s[n + 1..], Outside) else s
  }

  lemma {:induction false} CopiedShift(s: string, k: nat)
    requires k <= |s| && LiteralLength(s) == k + LiteralLength(s[k..])
    ensures Copied(s) == s[..k] + Copied(s[k..])
  {
    hide StripFrom, LiteralLength;
    var n := LiteralLength(s);
    assert s == s[..k] + s[k..];
    if n < |s| {
      assert s[k..][n - k + 1..] == s[n + 1..];
      assert s[..n] == s[..k] + s[k..][..n - k];
    }
  }

  lemma {:induction false} LiteralEnds(s: string)
    requires s == "" || s[0] == '"' || s == ['\\']
    ensures StripFrom(s, InLiteral(false)) == Copied(s)
  {
    if s != "" && s[0] == '"' {
      assert s[..0] + "\"" + StripFrom(s[1..], Outside) == ['"'] + StripFrom(s[1..], Outside);
    } else if s != "" {
      assert s[1..] == "" && s == [s[0]];
    }
  }

  /** Inside a literal an escape pair, and any other plain character, is copied. */
  lemma {:induction false} LiteralGoesOn(s: string, k: nat)
    requires s != "" && s[0] != '"' && k == (if s[0] == '\\' then 2 else 1) && k <= |s|
    ensures StripFrom(s, InLiteral(false)) == s[..k] + StripFrom(s[k..], InLiteral(false))
    ensures LiteralLength(s) == k + LiteralLength(s[k..])
  {
    if k == 2 {
      assert s[1..][0] == s[1] && s[1..][1..] == s[2..];
      assert StripFrom(s[1..], InLiteral(true)) == [s[1]] + StripFrom(s[2..], InLiteral(false));
      assert s[..2] + StripFrom(s[2..], InLiteral(false)) == [s[0]] + ([s[1]] + StripFrom(s[2..], InLiteral(false)));
    }
  }

  lemma {:induction false} LiteralIsCopied(s: string)
    ensures StripFrom(s, InLiteral(false)) == Copied(s)
    decreases |s|
  {
    hide StripFrom, LiteralLength, Copied;
    if s == "" || s[0] == '"' || s == ['\\'] {
      LiteralEnds(s);
    } else {
      var k := if s[0] == '\\' then 2 else 1;
      LiteralGoesOn(s, k);
      LiteralIsCopied(s[k..]);
      CopiedShift(s, k);
    }
  }

  lemma {:induction false} LineIsDropped(s: string)
    ensures var n := LineLength(s);
            StripFrom(s, InLine) == if n < |s| then "\n" + StripFrom(s[n + 1..], Outside) else ""
  {
    if s != "" && s[0] != '\n' {
      LineIsDropped(s[1..]);
      var n := LineLength(s);
      if n < |s| { assert s[1..][n - 1 + 1..] == s[n + 1..]; }
    }
  }

  lemma {:induction false} BlockIsDropped(s: string, prev: char)
    requires !(prev == '*' && s != "" && s[0] == '/')
    ensures var n := BlockLength(s);
            StripFrom(s, InBlock(prev)) == if n < |s| then StripFrom(s[n + 2..], Outside) else ""
  {
    if |s| >= 2 && s[0] == '*' && s[1] == '/' {
      assert s[1..][0] == '/' && s[1..][1..] == s[2..];
    } else if |s| >= 2 {
      BlockIsDropped(s[1..], s[0]);
      var n := BlockLength(s);
      if n < |s| { assert s[1..][n - 1 + 2..] == s[n + 2..]; }
    } else if |s| == 1 {
      assert s[1..] == "";
    }
  }

  /** Main result: stripping drops exactly the comments of the text's one reading. */
  lemma {:induction false} StripKeepsTokens(s: string)
    ensures Strip(s) == RenderKept(Lex(s))
    decreases |s|
  {
    if s == "" {
    } else {
      FirstPieceFits(s);
      var p := FirstPiece(s);
      var rest := s[|Text(p)|..];
      StripKeepsTokens(rest);
      assert Lex(s)[1..] == Lex(rest);
      StripFirst(s);
    }
  }

  lemma {:induction false} ClosedLiteral(s: string)
    requires s != "" && s[0] == '"' && LiteralLength(s[1..]) < |s[1..]|
    ensures var n := LiteralLength(s[1..]);
            && Text(FirstPiece(s)) == "\"" + s[1..][..n] + "\"" == KeptText(FirstPiece(s))
            && s[1..][n + 1..] == s[n + 2..]
  {
    hide LiteralLength;
  }

  lemma {:induction false} StripLiteral(s: string)
    requires s != "" && s[0] == '"'
    ensures |Text(FirstPiece(s))| <= |s|
    ensures Strip(s) == KeptText(FirstPiece(s)) + Strip(s[|Text(FirstPiece(s))|..])
  {
    hide LiteralLength, LiteralBody;
    FirstPieceFits(s);
    LiteralIsCopied(s[1..]);
    var n := LiteralLength(s[1..]);
    if n < |s[1..]| {
      ClosedLiteral(s);
      hide FirstPiece, Text, KeptText;
      Regroup("\"", s[1..][..n] + "\"", Strip(s[n + 2..]));
      Regroup("\"", s[1..][..n], "\"");
    } else {
      assert s == ['"'] + s[1..] && s[|s|..] == "";
      assert s + "" == s;
    }
  }

  lemma {:induction false} StripComment(s: string)
    requires StartsComment(s)
    ensures |Text(FirstPiece(s))| <= |s|
    ensures Strip(s) == KeptText(FirstPiece(s)) + Strip(s[|Text(FirstPiece(s))|..])
  {
    FirstPieceFits(s);
    var p := FirstPiece(s);
    var rest := s[|Text(p)|..];
    if s[1] == '/' {
      LineIsDropped(s[2..]);
      if p.closed { assert s[2..][|p.body| + 1..] == rest; }
    } else {
      BlockIsDropped(s[2..], '\0');
      if p.closed { assert s[2..][|p.body| + 2..] == rest; }
    }
    assert "" + Strip(rest) == Strip(rest);
  }

  lemma {:induction false} StripFirst(s: string)
    requires s != ""
    ensures |Text(FirstPiece(s))| <= |s|
    ensures Strip(s) == KeptText(FirstPiece(s)) + Strip(s[|Text(FirstPiece(s))|..])
  {
    if s[0] == '"' {
      StripLiteral(s);
    } else if StartsComment(s) {
      StripComment(s);
    }
  }

  lemma Drop(a: string, b: string, n: nat)
    requires n == |a|
    ensures (a + b)[n..] == b && (b != "" ==> (a + b)[n] == b[0])
  {
  }

  lemma CommentOpens(s: string)
    ensures Strip("//" + s) == StripFrom(s, InLine) && Strip("/*" + s) == StripFrom(s, InBlock('\0'))
  {
    assert ("//" + s)[2..] == s && ("/*" + s)[2..] == s;
  }

  /** A line comment leaves its newline. */
  lemma LineLaw(body: string, rest: string)
    requires '\n' !in body
    ensures Strip("//" + body + ("\n" + rest)) == "\n" + Strip(rest)
  {
    var tail := "\n" + rest;
    CommentOpens(body + tail);
    hide StripFrom, LineLength;
    Regroup("//", body, tail);
    LineReads(body, tail);
    LineIsDropped(body + tail);
    Drop(body + "\n", rest, |body| + 1);
    assert body + tail == body + "\n" + rest;
  }

  /** A block comment leaves nothing. */
  lemma BlockLaw(body: string, rest: string)
    requires forall i :: 0 <= i < |body| - 1 ==> !(body[i] == '*' && body[i + 1] == '/')
    ensures Strip("/*" + body + ("*/" + rest)) == Strip(rest)
  {
    var tail := "*/" + rest;
    CommentOpens(body + tail);
    hide StripFrom, BlockLength;
    Regroup("/*", body, tail);
    BlockReads(body, tail);
    BlockIsDropped(body + tail, '\0');
    Drop(body + "*/", rest, |body| + 2);
    assert body + tail == body + "*/" + rest;
  }

  /** A string literal leaves itself, whatever looks like a comment inside. */
  lemma LiteralLaw(body: string, rest: string)
    requires LiteralBody(body, true)
    ensures Strip("\"" + body + "\"" + rest) == "\"" + body + "\"" + Strip(rest)
  {
    var p := Literal(body, true);
    LiteralThenRest(p, rest);
    var s := Text(p) + rest;
    StripLiteral(s);
    Drop(Text(p), rest, |Text(p)|);
  }

  /** The same for any token sequence, however it was produced. */
  lemma StripTokens(ps: seq<Piece>)
    requires Tokens(ps)
    ensures Strip(Render(ps)) == RenderKept(ps)
  {
    LexIsUnique(ps);
    StripKeepsTokens(Render(ps));
  }

  // ---------------------------------------------------------------- what is left

  /** The tokens left: a closed line comment becomes its newline, other comments disappear. */
  function Kept(ps: seq<Piece>): seq<Piece> {
    if ps == [] then []
    else
      (match ps[0]
       case Line(_, closed) => if closed then [Other('\n')] else []
       case Block(_, _) => []
       case _ => [ps[0]])
      + Kept(ps[1..])
  }

  lemma {:induction false} KeptRenders(ps: seq<Piece>)
    ensures Render(Kept(ps)) == RenderKept(ps)
    ensures RenderKept(Kept(ps)) == RenderKept(ps)
    ensures forall i :: 0 <= i < |Kept(ps)| ==> Kept(ps)[i].Literal? || Kept(ps)[i].Other?
  {
    if ps == [] {
    } else {
      KeptRenders(ps[1..]);
      var rest := Kept(ps[1..]);
      match ps[0] {
        case Line(_, closed) =>
          if closed { assert ([Other('\n')] + rest)[1..] == rest; } else { assert [] + rest == rest; }
        case Block(_, _) => assert [] + rest == rest;
        case _ => assert ([ps[0]] + rest)[1..] == rest;
      }
    }
  }

  lemma KeptAfterSlash(ps: seq<Piece>)
    requires Tokens(ps) && ps != [] && ps[0].Other? && !StartsComment(Render(ps))
    ensures !StartsComment([ps[0].c] + Render(Kept(ps[1..])))
  {
    var rest := ps[1..];
    if ps[0].c == '/' && rest != [] {
      assert |Text(rest[0])| > 0;
      assert Render(ps)[1] == Render(rest)[0] == Text(rest[0])[0];
      var kept := Kept(rest);
      assert kept == [rest[0]] + Kept(rest[1..]);
      assert kept[1..] == Kept(rest[1..]);
      assert Render(kept)[0] == Text(rest[0])[0];
    }
  }

  lemma {:induction false} KeptAreTokens(ps: seq<Piece>)
    requires Tokens(ps)
    ensures Tokens(Kept(ps))
  {
    if ps == [] {
    } else {
      KeptAreTokens(ps[1..]);
      var rest := Kept(ps[1..]);
      match ps[0] {
        case Line(_, closed) =>
          if closed { assert ([Other('\n')] + rest)[1..] == rest; } else { assert [] + rest == rest; }
        case Block(_, _) => assert [] + rest == rest;
        case _ =>
          assert ([ps[0]] + rest)[1..] == rest;
          if ps[0].Other? { KeptAfterSlash(ps); }
      }
    }
  }

  /** The stripped text reads as the original's tokens without the comments. */
  lemma StrippedReads(s: string)
    ensures Lex(Strip(s)) == Kept(Lex(s))
  {
    LexReads(s);
    StripKeepsTokens(s);
    KeptRenders(Lex(s));
    KeptAreTokens(Lex(s));
    LexIsUnique(Kept(Lex(s)));
  }

  /** Stripping is idempotent. */
  lemma StripIsIdempotent(s: string)
    ensures Strip(Strip(s)) == Strip(s)
  {
    StrippedReads(s);
    StripKeepsTokens(Strip(s));
    StripKeepsTokens(s);
    KeptRenders(Lex(s));
  }

  function Literals(ps: seq<Piece>): seq<Piece> {
    if ps == [] then [] else (if ps[0].Literal? then [ps[0]] else []) + Literals(ps[1..])
  }

  lemma LiteralsOf(p: Piece, ps: seq<Piece>)
    ensures Literals([p] + ps) == (if p.Literal? then [p] else []) + Literals(ps)
  {
    assert ([p] + ps)[1..] == ps;
  }

  lemma {:induction false} KeptLiterals(ps: seq<Piece>)
    ensures Literals(Kept(ps)) == Literals(ps)
  {
    if ps == [] {
    } else {
      KeptLiterals(ps[1..]);
      hide Literals;
      var rest := Kept(ps[1..]);
      LiteralsOf(ps[0], ps[1..]);
      assert ps == [ps[0]] + ps[1..];
      match ps[0] {
        case Line(_, closed) => if closed { LiteralsOf(Other('\n'), rest); } else { assert [] + rest == rest; }
        case Block(_, _) => assert [] + rest == rest;
        case _ => LiteralsOf(ps[0], rest);
      }
    }
  }

  /** Every string literal survives, unchanged and in order. */
  lemma LiteralsSurvive(s: string)
    ensures Literals(Lex(Strip(s))) == Literals(Lex(s))
  {
    StrippedReads(s);
    KeptLiterals(Lex(s));
  }

  // ---------------------------------------------------------------- the source's loop

  /** From after `//`: to after the newline, which is kept, or to the end. */
  method SkipLine(text: string, from: nat) returns (i: nat, newline: string)
    requires from <= |text|
    ensures from <= i <= |text|
    ensures StripFrom(text[from..], InLine) == newline + StripFrom(text[i..], Outside)
  {
    i, newline := from, "";
    while i < |text|
      invariant from <= i <= |text|
      invariant newline == "" && StripFrom(text[from..], InLine) == StripFrom(text[i..], InLine)
    {
      assert text[i..][1..] == text[i + 1..];
      i := i + 1;
      if text[i - 1] == '\n' { return i, "\n"; }
    }
  }

  /** From after the opening of a block comment: to after its end, or to the end of the text. */
  method SkipBlock(text: string, from: nat) returns (i: nat)
    requires from <= |text|
    ensures from <= i <= |text|
    ensures StripFrom(text[from..], InBlock('\0')) == StripFrom(text[i..], Outside)
  {
    i := from;
    var prev := '\0';
    while i < |text|
      invariant from <= i <= |text|
      invariant StripFrom(text[from..], InBlock('\0')) == StripFrom(text[i..], InBlock(prev))
    {
      assert text[i..][1..] == text[i + 1..];
      var next := text[i];
      i := i + 1;
      if prev == '*' && next == '/' { return; }
      prev := next;
    }
  }

  lemma {:induction false} StepInLiteral(text: string, i: nat, escaped: bool)
    requires i < |text|
    ensures StripFrom(text[i..], InLiteral(escaped))
         == [text[i]] + StripFrom(text[i + 1..], AfterLiteralChar(escaped, text[i]))
  {
    assert text[i..][1..] == text[i + 1..];
  }

  lemma {:induction false} StepOutside(text: string, i: nat)
    requires i < |text|
    ensures StartsComment(text[i..]) <==> text[i] == '/' && i + 1 < |text| && (text[i + 1] == '/' || text[i + 1] == '*')
    ensures StripFrom(text[i..], Outside)
         == if text[i] == '"' then [text[i]] + StripFrom(text[i + 1..], InLiteral(false))
            else if StartsComment(text[i..]) then
              StripFrom(text[i + 2..], if text[i + 1] == '/' then InLine else InBlock('\0'))
            else [text[i]] + StripFrom(text[i + 1..], Outside)
  {
    assert text[i..][1..] == text[i + 1..];
    if i + 2 <= |text| { assert text[i..][2..] == text[i + 2..]; }
  }

  method StripComments(text: string) returns (out: string)
    ensures out == Strip(text)
  {
    out := "";
    var i := 0;
    var inString, escaped := false, false;
    while i < |text|
      invariant 0 <= i <= |text|
      invariant escaped ==> inString
      invariant Strip(text) == out + StripFrom(text[i..], if inString then InLiteral(escaped) else Outside)
    {
      var ch := text[i];
      if inString {
        StepInLiteral(text, i, escaped);
        Regroup(out, [ch], StripFrom(text[i + 1..], AfterLiteralChar(escaped, ch)));
        out := out + [ch];
        if escaped {
          escaped := false;
        } else if ch == '\\' {
          escaped := true;
        } else if ch == '"' {
          inString := false;
        }
        i := i + 1;
      } else {
        StepOutside(text, i);
        if ch == '"' {
          Regroup(out, [ch], StripFrom(text[i + 1..], InLiteral(false)));
          inString := true;
          out := out + [ch];
          i := i + 1;
        } else if ch == '/' && i + 1 < |text| && text[i + 1] == '/' {
          var newline;
          i, newline := SkipLine(text, i + 2);
          Regroup(out, newline, StripFrom(text[i..], Outside));
          out := out + newline;
        } else if ch == '/' && i + 1 < |text| && text[i + 1] == '*' {
          i := SkipBlock(text, i + 2);
        } else {
          Regroup(out, [ch], StripFrom(text[i + 1..], Outside));
          out := out + [ch];
          i := i + 1;
        }
      }
    }
  }
}
