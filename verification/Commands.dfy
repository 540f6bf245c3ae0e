/** Command normalisation: environment assignments and spacing removed, so that repeated attempts at
    one command fall in one group. */
module Commands {

  /** Unicode White_Space. */
  predicate IsBlank(c: char) {
    var n := c as int;
    || 0x09 <= n <= 0x0D || n == 0x20 || n == 0x85 || n == 0xA0 || n == 0x1680
    || 0x2000 <= n <= 0x200A || n == 0x2028 || n == 0x2029 || n == 0x202F || n == 0x205F || n == 0x3000
  }

  predicate AllBlank(s: string) { forall i :: 0 <= i < |s| ==> IsBlank(s[i]) }

  predicate NoBlank(s: string) { forall i :: 0 <= i < |s| ==> !IsBlank(s[i]) }

  function TokenEnd(s: string): (n: nat)
    ensures n <= |s| && NoBlank(s[..n]) && (n < |s| ==> IsBlank(s[n]))
  {
    if s == "" || IsBlank(s[0]) then 0 else 1 + TokenEnd(s[1..])
  }

  function TrimStart(s: string): (r: string)
    ensures |r| <= |s| && (r != "" ==> !IsBlank(r[0]))
  {
    if s != "" && IsBlank(s[0]) then TrimStart(s[1..]) else s
  }

  function TrimEnd(s: string): (r: string)
    ensures |r| <= |s|
  {
    if s != "" && IsBlank(s[|s| - 1]) then TrimEnd(s[..|s| - 1]) else s
  }

  function Trim(s: string): string { TrimEnd(TrimStart(s)) }

  /** The maximal blank-free pieces of `s`. */
  function Words(s: string): seq<string>
    decreases |s|
  {
    if s == "" then []
    else if IsBlank(s[0]) then Words(s[1..])
    else [s[..TokenEnd(s)]] + Words(s[TokenEnd(s)..])
  }

  function IndexOf(s: string, c: char): (n: nat)
    ensures n <= |s| && c !in s[..n] && (n < |s| ==> s[n] == c)
  {
    if s == "" || s[0] == c then 0 else 1 + IndexOf(s[1..], c)
  }

  predicate IsUpper(c: char) { 'A' <= c <= 'Z' }

  predicate IsKeyChar(c: char) { IsUpper(c) || '0' <= c <= '9' || c == '_' }

  /** `KEY=...` where KEY is upper-case ASCII, digits and underscores, not starting with a digit. */
  predicate IsEnvAssignment(token: string) {
    var n := IndexOf(token, '=');
    && n < |token| && n > 0
    && (IsUpper(token[0]) || token[0] == '_')
    && forall i :: 0 <= i < n ==> IsKeyChar(token[i])
  }

  function StripEnv(s: string): string
    decreases |s|
  {
    var n := TokenEnd(s);
    if IsEnvAssignment(s[..n]) then
      var rest := TrimStart(s[n..]);
      if rest == "" then rest else StripEnv(rest)
    else s
  }

  function JoinWords(words: seq<string>): string {
    if words == [] then ""
    else if |words| == 1 then words[0]
    else words[0] + " " + JoinWords(words[1..])
  }

  function NormalizeCmd(content: string): string { JoinWords(Words(StripEnv(Trim(content)))) }

  method StripEnvAssignments(s: string) returns (rest: string)
    ensures rest == StripEnv(s)
  {
    rest := s;
    while true
      invariant StripEnv(rest) == StripEnv(s)
      decreases |rest|
    {
      var end := TokenEnd(rest);
      if !IsEnvAssignment(rest[..end]) { return; }
      var next := TrimStart(rest[end..]);
      if next == "" { return next; }
      rest := next;
    }
  }

  // ---------------------------------------------------------------- in terms of words

  ghost predicate AreWords(words: seq<string>) {
    forall i :: 0 <= i < |words| ==> words[i] != "" && NoBlank(words[i])
  }

  function DropEnv(words: seq<string>): seq<string> {
    if words != [] && IsEnvAssignment(words[0]) then DropEnv(words[1..]) else words
  }

  lemma {:induction false} WordsAreWords(s: string)
    ensures AreWords(Words(s))
    decreases |s|
  {
    if s == "" {
    } else {
      if IsBlank(s[0]) { WordsAreWords(s[1..]); } else { WordsAreWords(s[TokenEnd(s)..]); }
    }
  }

  lemma {:induction false} BlankHasNoWords(b: string)
    requires AllBlank(b)
    ensures Words(b) == []
  {
    if b == "" {
    } else {
      BlankHasNoWords(b[1..]);
    }
  }

  lemma {:induction false} BlankFirst(b: string, s: string)
    requires AllBlank(b)
    ensures Words(b + s) == Words(s)
  {
    if b == "" {
      assert b + s == s;
    } else {
      assert (b + s)[1..] == b[1..] + s;
      BlankFirst(b[1..], s);
    }
  }

  lemma {:induction false} TokenEndAt(w: string, s: string)
    requires NoBlank(w) && (s == "" || IsBlank(s[0]))
    ensures TokenEnd(w + s) == |w|
  {
    if w == "" {
      assert w + s == s;
    } else {
      assert (w + s)[1..] == w[1..] + s;
      TokenEndAt(w[1..], s);
    }
  }

  lemma WordFirst(w: string, s: string)
    requires w != "" && NoBlank(w) && (s == "" || IsBlank(s[0]))
    ensures Words(w + s) == [w] + Words(s)
  {
    TokenEndAt(w, s);
    assert (w + s)[..|w|] == w && (w + s)[|w|..] == s;
  }

  lemma {:induction false} BlankLast(s: string, b: string)
    requires AllBlank(b)
    ensures Words(s + b) == Words(s)
    decreases |s|
  {
    if s == "" {
      assert s + b == b;
      BlankHasNoWords(b);
    } else if IsBlank(s[0]) {
      assert (s + b)[1..] == s[1..] + b;
      BlankLast(s[1..], b);
    } else {
      var n := TokenEnd(s);
      BlankLast(s[n..], b);
      assert s + b == s[..n] + (s[n..] + b) && s == s[..n] + s[n..];
      WordFirst(s[..n], s[n..] + b);
      WordFirst(s[..n], s[n..]);
    }
  }

  lemma {:induction false} TrimStartWords(s: string)
    ensures Words(TrimStart(s)) == Words(s)
  {
    if s != "" && IsBlank(s[0]) { TrimStartWords(s[1..]); }
  }

  lemma {:induction false} TrimEndWords(s: string)
    ensures Words(TrimEnd(s)) == Words(s)
    ensures s != "" && !IsBlank(s[0]) ==> TrimEnd(s) != "" && TrimEnd(s)[0] == s[0]
  {
    if s != "" && IsBlank(s[|s| - 1]) {
      var init := s[..|s| - 1];
      TrimEndWords(init);
      BlankLast(init, [s[|s| - 1]]);
      assert s == init + [s[|s| - 1]];
    }
  }

  lemma {:induction false} StripEnvWords(s: string)
    requires s != "" ==> !IsBlank(s[0])
    ensures Words(StripEnv(s)) == DropEnv(Words(s))
    decreases |s|
  {
    if s == "" {
      assert s[..TokenEnd(s)] == "";
    } else {
      var n := TokenEnd(s);
      assert Words(s)[0] == s[..n] && Words(s)[1..] == Words(s[n..]);
      if IsEnvAssignment(s[..n]) {
        TrimStartWords(s[n..]);
        if TrimStart(s[n..]) != "" { StripEnvWords(TrimStart(s[n..])); }
      }
    }
  }

  /** A normalised command is the words of the command after its leading assignments. */
  lemma NormalizeIsWords(content: string)
    ensures NormalizeCmd(content) == JoinWords(DropEnv(Words(content)))
  {
    TrimStartWords(content);
    TrimEndWords(TrimStart(content));
    if TrimStart(content) == "" { assert Trim(content) == ""; }
    StripEnvWords(Trim(content));
  }

  lemma {:induction false} DropEnvKeeps(words: seq<string>)
    ensures DropEnv(DropEnv(words)) == DropEnv(words)
    ensures AreWords(words) ==> AreWords(DropEnv(words))
  {
    if words != [] && IsEnvAssignment(words[0]) { DropEnvKeeps(words[1..]); }
  }

  lemma {:induction false} JoinedWords(words: seq<string>)
    requires AreWords(words)
    ensures Words(JoinWords(words)) == words
  {
    if |words| == 1 {
      WordFirst(words[0], "");
      assert words[0] + "" == words[0];
    } else if |words| > 1 {
      var rest := JoinWords(words[1..]);
      JoinedWords(words[1..]);
      assert JoinWords(words) == words[0] + (" " + rest);
      WordFirst(words[0], " " + rest);
      BlankFirst(" ", rest);
      assert words == [words[0]] + words[1..];
    }
  }

  /** Normalising twice is normalising once. */
  lemma NormalizeIsIdempotent(content: string)
    ensures NormalizeCmd(NormalizeCmd(content)) == NormalizeCmd(content)
  {
    var words := DropEnv(Words(content));
    NormalizeIsWords(content);
    NormalizeIsWords(NormalizeCmd(content));
    WordsAreWords(content);
    DropEnvKeeps(Words(content));
    JoinedWords(words);
  }

  /** Two commands fall in the same group exactly when they agree word for word after their leading
      assignments. */
  lemma SameGroupIff(a: string, b: string)
    ensures NormalizeCmd(a) == NormalizeCmd(b) <==> DropEnv(Words(a)) == DropEnv(Words(b))
  {
    NormalizeIsWords(a);
    NormalizeIsWords(b);
    WordsAreWords(a);
    WordsAreWords(b);
    DropEnvKeeps(Words(a));
    DropEnvKeeps(Words(b));
    JoinedWords(DropEnv(Words(a)));
    JoinedWords(DropEnv(Words(b)));
  }

  /** `words` laid out with the given blank gaps before each word and at the end. */
  function Layout(words: seq<string>, gaps: seq<string>): string
    requires |gaps| == |words| + 1
  {
    if words == [] then gaps[0] else gaps[0] + words[0] + Layout(words[1..], gaps[1..])
  }

  ghost predicate Gaps(gaps: seq<string>) {
    && (forall i :: 0 <= i < |gaps| ==> AllBlank(gaps[i]))
    && (forall i :: 0 < i < |gaps| - 1 ==> gaps[i] != "")
  }

  lemma {:induction false} LayoutWords(words: seq<string>, gaps: seq<string>)
    requires |gaps| == |words| + 1 && AreWords(words)
    requires forall i :: 0 <= i < |gaps| ==> AllBlank(gaps[i])
    requires forall i :: 0 < i < |gaps| - 1 ==> gaps[i] != ""
    ensures Words(Layout(words, gaps)) == words
    ensures gaps[0] != "" ==> Layout(words, gaps) != "" && IsBlank(Layout(words, gaps)[0])
    decreases |words|
  {
    if words == [] {
      BlankHasNoWords(gaps[0]);
    } else {
      var rest := Layout(words[1..], gaps[1..]);
      LayoutWords(words[1..], gaps[1..]);
      assert Layout(words, gaps) == gaps[0] + (words[0] + rest);
      BlankFirst(gaps[0], words[0] + rest);
      if |words| == 1 && gaps[1] == "" { assert rest == ""; }
      WordFirst(words[0], rest);
      assert words == [words[0]] + words[1..];
    }
  }

  lemma {:induction false} DropEnvPrefix(envs: seq<string>, words: seq<string>)
    requires forall i :: 0 <= i < |envs| ==> IsEnvAssignment(envs[i])
    ensures DropEnv(envs + words) == DropEnv(words)
  {
    if envs == [] {
      assert envs + words == words;
    } else {
      assert (envs + words)[1..] == envs[1..] + words;
      DropEnvPrefix(envs[1..], words);
    }
  }

  /** Re-spacing a command and putting any number of assignments in front changes nothing. */
  lemma SpacingAndEnvDoNotMatter(
    words: seq<string>, gaps: seq<string>, envs: seq<string>, otherGaps: seq<string>)
    requires AreWords(words) && AreWords(envs) && forall i :: 0 <= i < |envs| ==> IsEnvAssignment(envs[i])
    requires |gaps| == |words| + 1 && Gaps(gaps)
    requires |otherGaps| == |envs + words| + 1 && Gaps(otherGaps)
    ensures NormalizeCmd(Layout(envs + words, otherGaps)) == NormalizeCmd(Layout(words, gaps))
  {
    hide Words, NormalizeCmd, IsEnvAssignment, JoinWords, Layout;
    LayoutWords(words, gaps);
    LayoutWords(envs + words, otherGaps);
    DropEnvPrefix(envs, words);
    NormalizeIsWords(Layout(words, gaps));
    NormalizeIsWords(Layout(envs + words, otherGaps));
  }

  // ---------------------------------------------------------------- in terms of characters

  /** The 25 characters of the White_Space property. */
  lemma BlankIff(c: char)
    ensures IsBlank(c) <==> c as int in {
              9, 10, 11, 12, 13, 32, 133, 160, 5760, 8192, 8193, 8194, 8195, 8196, 8197, 8198, 8199, 8200, 8201, 8202,
              8232, 8233, 8239, 8287, 12288}
  {
  }

  lemma {:induction false} IndexIs(s: string, c: char, n: nat)
    requires n < |s| && s[n] == c && c !in s[..n]
    ensures IndexOf(s, c) == n
  {
    if n == 0 {
    } else {
      assert s[..n][0] == s[0];
      assert s[1..][..n - 1] == s[..n][1..];
      IndexIs(s[1..], c, n - 1);
    }
  }

  /** An assignment is a non-empty key of A-Z, 0-9 and underscores that does not start with a digit,
      and an equals sign. */
  lemma EnvIff(token: string)
    ensures IsEnvAssignment(token) <==> exists n :: IsKeyEnd(token, n)
  {
    if IsEnvAssignment(token) {
      assert IsKeyEnd(token, IndexOf(token, '='));
    }
    if exists n :: IsKeyEnd(token, n) {
      var n: nat :| IsKeyEnd(token, n);
      forall i | 0 <= i < n ensures token[..n][i] != '=' {}
      IndexIs(token, '=', n);
    }
  }

  ghost predicate IsKeyEnd(token: string, n: nat) {
    && 0 < n < |token| && token[n] == '='
    && !('0' <= token[0] <= '9')
    && forall i :: 0 <= i < n ==> 'A' <= token[i] <= 'Z' || '0' <= token[i] <= '9' || token[i] == '_'
  }

  /** Only the leading assignments go: what is left starts with the first word that is none. */
  lemma {:induction false} DropEnvIs(words: seq<string>) returns (n: nat)
    ensures n <= |words| && DropEnv(words) == words[n..]
    ensures forall i :: 0 <= i < n ==> IsEnvAssignment(words[i])
    ensures n < |words| ==> !IsEnvAssignment(words[n])
  {
    if words == [] || !IsEnvAssignment(words[0]) {
      n := 0;
    } else {
      var m := DropEnvIs(words[1..]);
      n := m + 1;
    }
  }

  /** Single spaces between words and nothing around them. */
  function Single(n: nat): seq<string> { seq(n + 1, i => if 0 < i < n then " " else "") }

  lemma {:induction false} JoinedLayout(words: seq<string>)
    ensures JoinWords(words) == Layout(words, Single(|words|))
  {
    if words == [] {
    } else if |words| == 1 {
      assert Single(1)[1..] == [""];
      assert Layout(words[1..], [""]) == "" && words[1..] == [];
    } else {
      JoinedLayout(words[1..]);
      LayoutGap(words[1..], Single(|words|)[1..], Single(|words| - 1));
    }
  }

  lemma LayoutGap(words: seq<string>, gaps: seq<string>, others: seq<string>)
    requires words != [] && |gaps| == |others| == |words| + 1 && gaps[0] == " " && others[0] == ""
    requires gaps[1..] == others[1..]
    ensures Layout(words, gaps) == " " + Layout(words, others)
  {
    hide Layout;
    LayoutStep(words, gaps);
    LayoutStep(words, others);
    assert "" + words[0] == words[0];
    assert " " + words[0] + Layout(words[1..], gaps[1..]) == " " + (words[0] + Layout(words[1..], others[1..]));
  }

  lemma LayoutStep(words: seq<string>, gaps: seq<string>)
    requires words != [] && |gaps| == |words| + 1
    ensures Layout(words, gaps) == gaps[0] + words[0] + Layout(words[1..], gaps[1..])
  {
  }

  /** The normalised command, written out. */
  lemma NormalizedLayout(content: string)
    ensures var words := DropEnv(Words(content)); NormalizeCmd(content) == Layout(words, Single(|words|))
  {
    NormalizeIsWords(content);
    JoinedLayout(DropEnv(Words(content)));
  }
}
