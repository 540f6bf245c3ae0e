/** Shell command strings the workbench builds, read back by a POSIX word reader (sections 2.2.1,
    2.2.2 and 2.3 of the Shell Command Language, IEEE Std 1003.1-2017). */
module Shell {
  import opened Basics

  // ---------------------------------------------------------------- the reader

  /** A character taken literally, or the expansion `$?`. */
  datatype Sym = Ch(c: char) | LastStatus

  datatype Token = Word(syms: seq<Sym>) | AndIf | Semi

  /** Characters that mean something unquoted and that the reader declines to interpret: operators,
      expansions, double quotes, patterns, comments, tildes and newlines. */
  predicate Declined(c: char) {
    || c == '|' || c == '&' || c == ';' || c == '<' || c == '>' || c == '(' || c == ')' || c == '$' || c == '`'
    || c == '"' || c == '*' || c == '?' || c == '[' || c == '#' || c == '~' || c == '\n'
  }

  function Flush(cur: Option<seq<Sym>>): seq<Token> {
    match cur case None => [] case Some(syms) => [Word(syms)]
  }

  function Extend(cur: Option<seq<Sym>>, more: seq<Sym>): Option<seq<Sym>> {
    match cur case None => Some(more) case Some(syms) => Some(syms + more)
  }

  function Prepend(tokens: seq<Token>, rest: Option<seq<Token>>): Option<seq<Token>> {
    match rest case None => None case Some(more) => Some(tokens + more)
  }

  /** Tokens of `s`, where `cur` is the word read so far; None if a quote stays open or an unquoted
      character would be interpreted. */
  function Read(s: string, cur: Option<seq<Sym>>, quoted: bool): Option<seq<Token>>
    decreases |s|
  {
    if s == "" then (if quoted then None else Some(Flush(cur)))
    else
      var c, rest := s[0], s[1..];
      if quoted then
        if c == '\'' then Read(rest, cur, false) else Read(rest, Extend(cur, [Ch(c)]), true)
      else if c == ' ' || c == '\t' then Prepend(Flush(cur), Read(rest, None, false))
      else if c == '\'' then Read(rest, Extend(cur, []), true)
      else if c == '\\' then
        if rest == "" then None
        else if rest[0] == '\n' then Read(rest[1..], cur, false)
        else Read(rest[1..], Extend(cur, [Ch(rest[0])]), false)
      else if c == '&' && rest != "" && rest[0] == '&' then
        Prepend(Flush(cur) + [AndIf], Read(rest[1..], None, false))
      else if c == ';' && !(rest != "" && rest[0] == ';') then
        Prepend(Flush(cur) + [Semi], Read(rest, None, false))
      else if c == '$' && rest != "" && rest[0] == '?' then
        Read(rest[1..], Extend(cur, [LastStatus]), false)
      else if Declined(c) then None
      else Read(rest, Extend(cur, [Ch(c)]), false)
  }

  function Tokens(s: string): Option<seq<Token>> { Read(s, None, false) }

  function Lit(s: string): seq<Sym> { seq(|s|, i requires 0 <= i < |s| => Ch(s[i])) }

  /** The word that is exactly `s`, nothing in it interpreted. */
  function Exactly(s: string): Token { Word(Lit(s)) }

  // ---------------------------------------------------------------- the builders

  /** Each single quote closes the quotes, adds an escaped one and opens them again. */
  function Escape(s: string): string {
    if s == "" then ""
    else (if s[0] == '\'' then "'\\''" else [s[0]]) + Escape(s[1..])
  }

  function ShellQuote(s: string): string { "'" + Escape(s) + "'" }

  datatype Adapter = ClaudeCode | Codex

  const ASK_FLAG := "--dangerously-skip-permissions=false"

  function HeadlessCmd(adapter: Adapter, task: string): string {
    match adapter
    case ClaudeCode =>
      "claude -p " + ShellQuote(task) + " " + ("--output-format json " + ASK_FLAG)
    case Codex => "codex exec " + ShellQuote(task)
  }

  /** Neither adapter overrides the container command. */
  function ContainerCmd(adapter: Adapter, task: string): string { HeadlessCmd(adapter, task) }

  function DockerRunCommand(image: string, worktree: string, inner: string): string {
    "docker run --rm -i -v " + ShellQuote(worktree) + ":/workspace -w /workspace "
    + ShellQuote(image) + " sh -lc " + ShellQuote(inner)
  }

  datatype Backend = Local | Docker(image: string)

  const EXIT_TAIL := "; echo RATO_EXIT=$?"

  function WrappedRunCommand(title: string, adapter: Adapter, worktree: string, backend: Backend): string {
    match backend
    case Local => "cd " + ShellQuote(worktree) + " && " + HeadlessCmd(adapter, title) + EXIT_TAIL
    case Docker(image) =>
      DockerRunCommand(image, worktree, ContainerCmd(adapter, title)) + EXIT_TAIL
  }

  // ---------------------------------------------------------------- quoting is exact

  lemma LitSplits(a: string, b: string)
    ensures Lit(a + b) == Lit(a) + Lit(b)
  {
  }

  lemma ExtendTwice(cur: Option<seq<Sym>>, a: seq<Sym>, b: seq<Sym>)
    ensures Extend(Extend(cur, a), b) == Extend(cur, a + b)
  {
    if cur.Some? { assert cur.value + a + b == cur.value + (a + b); }
  }

  lemma {:induction false} EscapedQuoteReads(cur: Option<seq<Sym>>, rest: string)
    requires cur.Some?
    ensures Read("'\\''" + rest, cur, true) == Read(rest, Extend(cur, [Ch('\'')]), true)
  {
    var s := "'\\''" + rest;
    assert s[1..] == "\\''" + rest;
    assert s[1..][1..] == "''" + rest && s[1..][1..][1..] == "'" + rest && ("'" + rest)[1..] == rest;
    ExtendTwice(cur, [Ch('\'')], []);
    assert [Ch('\'')] + [] == [Ch('\'')];
    assert Read(s, cur, true) == Read(s[1..], cur, false);
    assert Read(s[1..], cur, false) == Read("'" + rest, Extend(cur, [Ch('\'')]), false);
    assert Read("'" + rest, Extend(cur, [Ch('\'')]), false) == Read(rest, Extend(Extend(cur, [Ch('\'')]), []), true);
  }

  lemma {:induction false} EscapeReads(s: string, cur: Option<seq<Sym>>, rest: string)
    requires cur.Some?
    ensures Read(Escape(s) + rest, cur, true) == Read(rest, Extend(cur, Lit(s)), true)
    decreases |s|
  {
    if s == "" {
      assert Escape(s) + rest == rest && cur.value + Lit(s) == cur.value;
    } else {
      var head, tail := [s[0]], s[1..];
      assert s == head + tail;
      LitSplits(head, tail);
      assert Lit(head) == [Ch(s[0])];
      ExtendTwice(cur, Lit(head), Lit(tail));
      var more := Escape(tail) + rest;
      if s[0] == '\'' {
        assert Escape(s) + rest == "'\\''" + more;
        EscapedQuoteReads(cur, more);
      } else {
        assert Escape(s) + rest == head + more;
        assert (head + more)[1..] == more;
      }
      EscapeReads(tail, Extend(cur, [Ch(s[0])]), rest);
    }
  }

  /** In any unquoted context a quoted string adds exactly its own characters to the word. */
  lemma {:induction false} QuoteReads(s: string, cur: Option<seq<Sym>>, rest: string)
    ensures Read(ShellQuote(s) + rest, cur, false) == Read(rest, Extend(cur, Lit(s)), false)
  {
    var tail := "'" + rest;
    assert ShellQuote(s) + rest == "'" + (Escape(s) + tail);
    assert ("'" + (Escape(s) + tail))[1..] == Escape(s) + tail;
    EscapeReads(s, Extend(cur, []), tail);
    assert tail[1..] == rest;
    ExtendTwice(cur, [], Lit(s));
    assert [] + Lit(s) == Lit(s);
  }

  /** A quoted string, whatever it holds, is one word equal to the string. */
  lemma QuotedIsOneWord(s: string)
    ensures Tokens(ShellQuote(s)) == Some([Exactly(s)])
  {
    QuoteReads(s, None, "");
    assert ShellQuote(s) + "" == ShellQuote(s);
  }

  // ---------------------------------------------------------------- plain words

  predicate Plain(w: string) {
    forall i :: 0 <= i < |w| ==> !Declined(w[i]) && w[i] != ' ' && w[i] != '\t' && w[i] != '\'' && w[i] != '\\'
  }

  lemma {:induction false} PlainReads(w: string, cur: Option<seq<Sym>>, rest: string)
    requires Plain(w) && w != ""
    ensures Read(w + rest, cur, false) == Read(rest, Extend(cur, Lit(w)), false)
    decreases |w|
  {
    var head, tail := [w[0]], w[1..];
    assert !Declined(w[0]);
    assert (w + rest)[1..] == tail + rest;
    assert Lit(head) == [Ch(w[0])];
    if tail == "" {
      assert w == head && tail + rest == rest;
    } else {
      assert w == head + tail;
      LitSplits(head, tail);
      ExtendTwice(cur, Lit(head), Lit(tail));
      PlainReads(tail, Extend(cur, Lit(head)), rest);
    }
  }

  lemma {:induction false} SpaceReads(cur: Option<seq<Sym>>, rest: string)
    ensures Read(" " + rest, cur, false) == Prepend(Flush(cur), Read(rest, None, false))
  {
    assert (" " + rest)[1..] == rest;
  }

  /** Each word followed by a space. */
  function Spaced(words: seq<string>): string {
    if words == [] then "" else words[0] + " " + Spaced(words[1..])
  }

  function Exact(words: seq<string>): seq<Token> { seq(|words|, i requires 0 <= i < |words| => Exactly(words[i])) }

  lemma PrependTwice(a: seq<Token>, b: seq<Token>, r: Option<seq<Token>>)
    ensures Prepend(a, Prepend(b, r)) == Prepend(a + b, r)
  {
    if r.Some? { assert a + (b + r.value) == a + b + r.value; }
  }

  lemma {:induction false} SpacedReads(words: seq<string>, rest: string)
    requires forall i :: 0 <= i < |words| ==> words[i] != "" && Plain(words[i])
    ensures Read(Spaced(words) + rest, None, false) == Prepend(Exact(words), Read(rest, None, false))
    decreases |words|
  {
    if words == [] {
      assert Spaced(words) + rest == rest;
      if Read(rest, None, false).Some? { assert [] + Read(rest, None, false).value == Read(rest, None, false).value; }
    } else {
      var more := Spaced(words[1..]) + rest;
      assert Spaced(words) + rest == words[0] + (" " + more);
      PlainReads(words[0], None, " " + more);
      SpaceReads(Some(Lit(words[0])), more);
      SpacedReads(words[1..], rest);
      PrependTwice([Exactly(words[0])], Exact(words[1..]), Read(rest, None, false));
      assert Exact(words) == [Exactly(words[0])] + Exact(words[1..]);
    }
  }

  // ---------------------------------------------------------------- whole commands

  /** The words a command is meant to carry. */
  function HeadlessArgv(adapter: Adapter, task: string): seq<string> {
    match adapter
    case ClaudeCode => ["claude", "-p", task, "--output-format", "json", "--dangerously-skip-permissions=false"]
    case Codex => ["codex", "exec", task]
  }

  function DockerArgv(image: string, worktree: string, inner: string): seq<string> {
    ["docker", "run", "--rm", "-i", "-v", worktree + ":/workspace", "-w", "/workspace", image, "sh", "-lc", inner]
  }

  /** `argv` is read with its last word still open, so that what follows decides where it ends. */
  ghost predicate ReadsAs(cmd: string, argv: seq<string>, rest: string) {
    argv != [] &&
    Read(cmd + rest, None, false)
    == Prepend(Exact(argv[..|argv| - 1]), Read(rest, Some(Lit(argv[|argv| - 1])), false))
  }

  lemma {:induction false} QuotedThenSpace(s: string, rest: string)
    ensures Read(ShellQuote(s) + (" " + rest), None, false) == Prepend([Exactly(s)], Read(rest, None, false))
  {
    QuoteReads(s, None, " " + rest);
    SpaceReads(Some(Lit(s)), rest);
  }

  lemma ExactSplits(a: seq<string>, b: seq<string>)
    ensures Exact(a + b) == Exact(a) + Exact(b)
  {
  }

  /** Reading `a` and then, from a fresh word, `b`. */
  lemma ReadThen(a: string, words: seq<string>, b: string, argv: seq<string>, rest: string)
    requires Read(a + (b + rest), None, false) == Prepend(Exact(words), Read(b + rest, None, false))
    requires ReadsAs(b, argv, rest)
    ensures ReadsAs(a + b, words + argv, rest)
  {
    assert a + b + rest == a + (b + rest);
    PrependTwice(Exact(words), Exact(argv[..|argv| - 1]), Read(rest, Some(Lit(argv[|argv| - 1])), false));
    assert (words + argv)[..|words + argv| - 1] == words + argv[..|argv| - 1];
    ExactSplits(words, argv[..|argv| - 1]);
  }

  lemma {:induction false} QuoteReadsAs(s: string, rest: string)
    ensures ReadsAs(ShellQuote(s), [s], rest)
  {
    QuoteReads(s, None, rest);
    var r := Read(rest, Some(Lit(s)), false);
    if r.Some? { assert Exact([]) + r.value == r.value; }
  }

  lemma {:induction false} PlainReadsAs(w: string, rest: string)
    requires Plain(w) && w != ""
    ensures ReadsAs(w, [w], rest)
  {
    PlainReads(w, None, rest);
    var r := Read(rest, Some(Lit(w)), false);
    if r.Some? { assert Exact([]) + r.value == r.value; }
  }

  lemma {:induction false} SpacedTwo(a: string, b: string)
    ensures Spaced([a, b]) == a + " " + (b + " ")
  {
    assert [a, b][1..] == [b];
    assert Spaced([b]) == b + " " + "";
  }

  lemma {:induction false} CodexReads(task: string, rest: string)
    ensures ReadsAs(HeadlessCmd(Codex, task), HeadlessArgv(Codex, task), rest)
  {
    var words := ["codex", "exec"];
    SpacedTwo("codex", "exec");
    assert Spaced(words) == "codex exec ";
    SpacedReads(words, ShellQuote(task) + rest);
    QuoteReadsAs(task, rest);
    ReadThen("codex exec ", words, ShellQuote(task), [task], rest);
    assert words + [task] == HeadlessArgv(Codex, task);
  }

  lemma PlainSplits(a: string, b: string)
    requires Plain(a) && Plain(b)
    ensures Plain(a + b)
  {
    forall i | 0 <= i < |a + b|
      ensures && !Declined((a + b)[i]) && (a + b)[i] != ' ' && (a + b)[i] != '\t'
              && (a + b)[i] != '\'' && (a + b)[i] != '\\'
    {
      assert (a + b)[i] == if i < |a| then a[i] else b[i - |a|];
    }
  }

  lemma AskFlagIsPlain()
    ensures Plain(ASK_FLAG) && ASK_FLAG != ""
  {
    var a, b := "--dangerously-skip-", "permissions=false";
    assert Plain(a) && Plain(b);
    PlainSplits(a, b);
    assert ASK_FLAG == a + b;
  }

  lemma OutputFormat()
    ensures Spaced(["--output-format", "json"]) == "--output-format json "
    ensures Plain("--output-format") && Plain("json")
  {
    SpacedTwo("--output-format", "json");
  }

  lemma {:induction false} ClaudeTail(rest: string)
    ensures ReadsAs("--output-format json " + ASK_FLAG, ["--output-format", "json", ASK_FLAG], rest)
  {
    var words, flag := ["--output-format", "json"], ASK_FLAG;
    OutputFormat();
    AskFlagIsPlain();
    SpacedReads(words, flag + rest);
    PlainReadsAs(flag, rest);
    ReadThen(Spaced(words), words, flag, [flag], rest);
    assert words + [flag] == ["--output-format", "json", flag];
  }

  lemma {:induction false} ClaudeReads(task: string, rest: string)
    ensures ReadsAs(HeadlessCmd(ClaudeCode, task), HeadlessArgv(ClaudeCode, task), rest)
  {
    var flag := ASK_FLAG;
    var tail, targv := "--output-format json " + flag, ["--output-format", "json", flag];
    ClaudeTail(rest);
    QuotedReadsThen(task, tail, targv, rest);
    var words := ["claude", "-p"];
    SpacedTwo("claude", "-p");
    assert Spaced(words) == "claude -p ";
    SpacedReadsThen(words, ShellQuote(task) + " " + tail, [task] + targv, rest);
    assert "claude -p " + (ShellQuote(task) + " " + tail) == HeadlessCmd(ClaudeCode, task);
    assert words + ([task] + targv) == HeadlessArgv(ClaudeCode, task);
  }

  lemma {:induction false} QuotedReadsThen(s: string, tail: string, argv: seq<string>, rest: string)
    requires ReadsAs(tail, argv, rest)
    ensures ReadsAs(ShellQuote(s) + " " + tail, [s] + argv, rest)
  {
    QuotedThenSpace(s, tail + rest);
    assert ShellQuote(s) + " " + (tail + rest) == ShellQuote(s) + (" " + (tail + rest));
    assert Exact([s]) == [Exactly(s)];
    ReadThen(ShellQuote(s) + " ", [s], tail, argv, rest);
  }

  lemma {:induction false} SpacedReadsThen(words: seq<string>, tail: string, argv: seq<string>, rest: string)
    requires forall i :: 0 <= i < |words| ==> words[i] != "" && Plain(words[i])
    requires ReadsAs(tail, argv, rest)
    ensures ReadsAs(Spaced(words) + tail, words + argv, rest)
  {
    SpacedReads(words, tail + rest);
    ReadThen(Spaced(words), words, tail, argv, rest);
  }

  lemma HeadlessReads(adapter: Adapter, task: string, rest: string)
    ensures ReadsAs(HeadlessCmd(adapter, task), HeadlessArgv(adapter, task), rest)
  {
    if adapter.Codex? { CodexReads(task, rest); } else { ClaudeReads(task, rest); }
  }

  /** A command read to its end. */
  lemma ReadToEnd(cmd: string, argv: seq<string>)
    requires ReadsAs(cmd, argv, "")
    ensures Tokens(cmd) == Some(Exact(argv))
  {
    assert cmd + "" == cmd;
    var n := |argv| - 1;
    assert Exact(argv[..n]) + [Exactly(argv[n])] == Exact(argv);
  }

  lemma PathThenMount(worktree: string, tail: string, argv: seq<string>, rest: string)
    requires ReadsAs(tail, argv, rest)
    ensures ReadsAs(ShellQuote(worktree) + ":/workspace " + tail, [worktree + ":/workspace"] + argv, rest)
  {
    var mount, more := ":/workspace", tail + rest;
    assert ShellQuote(worktree) + ":/workspace " + more == ShellQuote(worktree) + (mount + (" " + more));
    QuoteReads(worktree, None, mount + (" " + more));
    PlainReads(mount, Some(Lit(worktree)), " " + more);
    LitSplits(worktree, mount);
    SpaceReads(Some(Lit(worktree + mount)), more);
    assert Exact([worktree + mount]) == [Exactly(worktree + mount)];
    ReadThen(ShellQuote(worktree) + ":/workspace ", [worktree + mount], tail, argv, rest);
  }

  lemma SpacedDocker()
    ensures Spaced(["docker", "run", "--rm", "-i", "-v"]) == "docker run --rm -i -v "
  {
    assert ["docker", "run", "--rm", "-i", "-v"][1..] == ["run", "--rm", "-i", "-v"];
    assert ["run", "--rm", "-i", "-v"][1..] == ["--rm", "-i", "-v"];
    assert ["--rm", "-i", "-v"][1..] == ["-i", "-v"];
    SpacedTwo("-i", "-v");
  }

  lemma {:induction false} InnerShell(inner: string, rest: string)
    ensures ReadsAs("sh -lc " + ShellQuote(inner), ["sh", "-lc"] + [inner], rest)
  {
    QuoteReadsAs(inner, rest);
    SpacedTwo("sh", "-lc");
    assert Spaced(["sh", "-lc"]) == "sh -lc ";
    SpacedReadsThen(["sh", "-lc"], ShellQuote(inner), [inner], rest);
  }

  lemma {:induction false} InWorkspace(tail: string, argv: seq<string>, rest: string)
    requires ReadsAs(tail, argv, rest)
    ensures ReadsAs("-w /workspace " + tail, ["-w", "/workspace"] + argv, rest)
  {
    SpacedTwo("-w", "/workspace");
    assert Spaced(["-w", "/workspace"]) == "-w /workspace ";
    SpacedReadsThen(["-w", "/workspace"], tail, argv, rest);
  }

  lemma {:induction false} DockerReads(image: string, worktree: string, inner: string, rest: string)
    ensures ReadsAs(DockerRunCommand(image, worktree, inner), DockerArgv(image, worktree, inner), rest)
  {
    InnerShell(inner, rest);
    var t1, a1 := "sh -lc " + ShellQuote(inner), ["sh", "-lc"] + [inner];
    QuotedReadsThen(image, t1, a1, rest);
    var t2, a2 := ShellQuote(image) + " " + t1, [image] + a1;
    InWorkspace(t2, a2, rest);
    DockerFront(image, worktree, inner, "-w /workspace " + t2, ["-w", "/workspace"] + a2, rest);
  }

  lemma {:induction false} DockerFront(
    image: string, worktree: string, inner: string, tail: string, argv: seq<string>, rest: string)
    requires ReadsAs(tail, argv, rest)
    requires tail == "-w /workspace " + (ShellQuote(image) + " " + ("sh -lc " + ShellQuote(inner)))
    requires argv == ["-w", "/workspace"] + ([image] + (["sh", "-lc"] + [inner]))
    ensures ReadsAs(DockerRunCommand(image, worktree, inner), DockerArgv(image, worktree, inner), rest)
  {
    hide ReadsAs, ShellQuote, Spaced;
    PathThenMount(worktree, tail, argv, rest);
    var t, a := ShellQuote(worktree) + ":/workspace " + tail, [worktree + ":/workspace"] + argv;
    var words := ["docker", "run", "--rm", "-i", "-v"];
    SpacedDocker();
    SpacedReadsThen(words, t, a, rest);
    assert words + a == DockerArgv(image, worktree, inner);
    assert "docker run --rm -i -v " + t == DockerRunCommand(image, worktree, inner);
  }

  /** The docker command is exactly its intended argument vector, and its last argument, read
      again by the inner shell, is exactly the adapter's, with the task as one argument. */
  lemma DockerCommandNests(image: string, worktree: string, adapter: Adapter, task: string)
    ensures var inner := ContainerCmd(adapter, task);
            var argv := DockerArgv(image, worktree, inner);
            && Tokens(DockerRunCommand(image, worktree, inner)) == Some(Exact(argv))
            && argv[|argv| - 1] == inner
            && Tokens(inner) == Some(Exact(HeadlessArgv(adapter, task)))
            && task in HeadlessArgv(adapter, task)
  {
    var inner := ContainerCmd(adapter, task);
    DockerReads(image, worktree, inner, "");
    ReadToEnd(DockerRunCommand(image, worktree, inner), DockerArgv(image, worktree, inner));
    HeadlessReads(adapter, task, "");
    ReadToEnd(inner, HeadlessArgv(adapter, task));
    assert HeadlessArgv(adapter, task)[2] == task;
  }

  // ---------------------------------------------------------------- the command typed into tmux

  /** `; echo RATO_EXIT=$?` ends the word before it and reports the status. */
  function ExitReport(): seq<Token> {
    [Semi, Exactly("echo"), Word(Lit("RATO_EXIT=") + [LastStatus])]
  }

  lemma {:induction false} SemiReads(cur: Option<seq<Sym>>, rest: string)
    requires rest != "" && rest[0] == ' '
    ensures Read(";" + rest, cur, false) == Prepend(Flush(cur) + [Semi], Read(rest, None, false))
  {
    assert (";" + rest)[1..] == rest;
  }

  lemma {:induction false} StatusReads(syms: seq<Sym>)
    ensures Read("$?", Some(syms), false) == Some([Word(syms + [LastStatus])])
  {
    assert "$?"[1..] == "?" && "?"[1..] == "";
  }

  lemma {:induction false} EchoStatusReads()
    ensures Read("echo" + (" " + ("RATO_EXIT=" + "$?")), None, false)
         == Some([Exactly("echo"), Word(Lit("RATO_EXIT=") + [LastStatus])])
  {
    PlainReads("echo", None, " " + ("RATO_EXIT=" + "$?"));
    SpaceReads(Some(Lit("echo")), "RATO_EXIT=" + "$?");
    PlainReads("RATO_EXIT=", None, "$?");
    StatusReads(Lit("RATO_EXIT="));
    var report := Word(Lit("RATO_EXIT=") + [LastStatus]);
    assert [Exactly("echo")] + [report] == [Exactly("echo"), report];
  }

  lemma ExitTailText()
    ensures EXIT_TAIL == ";" + (" " + ("echo" + (" " + ("RATO_EXIT=" + "$?"))))
  {
  }

  lemma {:induction false} ExitTailReads(last: string)
    ensures Read(EXIT_TAIL, Some(Lit(last)), false) == Some([Exactly(last)] + ExitReport())
  {
    var echo := "echo" + (" " + ("RATO_EXIT=" + "$?"));
    ExitTailText();
    SemiReads(Some(Lit(last)), " " + echo);
    SpaceReads(None, echo);
    EchoStatusReads();
    var report := [Exactly("echo"), Word(Lit("RATO_EXIT=") + [LastStatus])];
    assert [] + report == report && [Semi] + report == ExitReport();
    assert [Exactly(last)] + [Semi] + report == [Exactly(last)] + ([Semi] + report);
  }

  /** What the pane runs: the intended commands, then the status report the poller looks for. */
  function WrappedTokens(title: string, adapter: Adapter, worktree: string, backend: Backend): seq<Token> {
    match backend
    case Local => Exact(["cd", worktree]) + [AndIf] + Exact(HeadlessArgv(adapter, title)) + ExitReport()
    case Docker(image) => Exact(DockerArgv(image, worktree, ContainerCmd(adapter, title))) + ExitReport()
  }

  lemma {:induction false} ReadsThenExit(cmd: string, argv: seq<string>)
    requires ReadsAs(cmd, argv, EXIT_TAIL)
    ensures Read(cmd + EXIT_TAIL, None, false) == Some(Exact(argv) + ExitReport())
  {
    hide Lit, Read, ExitReport, EXIT_TAIL;
    var n := |argv| - 1;
    ExitTailReads(argv[n]);
    assert Exact(argv[..n]) + [Exactly(argv[n])] == Exact(argv);
    assert Exact(argv[..n]) + ([Exactly(argv[n])] + ExitReport())
        == Exact(argv[..n]) + [Exactly(argv[n])] + ExitReport();
  }

  lemma {:induction false} AndReads(cur: Option<seq<Sym>>, rest: string)
    ensures Read("&&" + rest, cur, false) == Prepend(Flush(cur) + [AndIf], Read(rest, None, false))
  {
    assert ("&&" + rest)[1..] == "&" + rest && ("&" + rest)[1..] == rest;
  }

  lemma {:induction false} SpacedAnd(rest: string)
    ensures Read("&& " + rest, None, false) == Prepend([AndIf], Read(rest, None, false))
  {
    hide Read;
    assert "&& " + rest == "&&" + (" " + rest);
    AndReads(None, " " + rest);
    SpaceReads(None, rest);
    PrependTwice([AndIf], [], Read(rest, None, false));
    assert [AndIf] + [] == [AndIf] && [] + [AndIf] == [AndIf];
  }

  lemma {:induction false} CdThen(worktree: string, rest: string)
    ensures Read("cd " + (ShellQuote(worktree) + (" && " + rest)), None, false)
         == Prepend(Exact(["cd", worktree]) + [AndIf], Read(rest, None, false))
  {
    hide Read, ShellQuote, Prepend;
    var more, r := "&& " + rest, Read(rest, None, false);
    assert " && " + rest == " " + more;
    assert Spaced(["cd"]) == "cd ";
    SpacedReads(["cd"], ShellQuote(worktree) + (" " + more));
    QuotedThenSpace(worktree, more);
    SpacedAnd(rest);
    PrependTwice([Exactly(worktree)], [AndIf], r);
    PrependTwice(Exact(["cd"]), [Exactly(worktree)] + [AndIf], r);
    assert Exact(["cd", worktree]) + [AndIf] == Exact(["cd"]) + ([Exactly(worktree)] + [AndIf]);
  }

  lemma {:induction false} LocalCommandReads(title: string, adapter: Adapter, worktree: string)
    ensures Tokens(WrappedRunCommand(title, adapter, worktree, Local))
         == Some(WrappedTokens(title, adapter, worktree, Local))
  {
    var cmd, argv := HeadlessCmd(adapter, title), HeadlessArgv(adapter, title);
    HeadlessReads(adapter, title, EXIT_TAIL);
    ReadsThenExit(cmd, argv);
    CdThen(worktree, cmd + EXIT_TAIL);
    assert "cd " + ShellQuote(worktree) + " && " + cmd + EXIT_TAIL
        == "cd " + (ShellQuote(worktree) + (" && " + (cmd + EXIT_TAIL)));
    assert Exact(["cd", worktree]) + [AndIf] + (Exact(argv) + ExitReport())
        == Exact(["cd", worktree]) + [AndIf] + Exact(argv) + ExitReport();
  }

  /** For every title, path and image the typed command is exactly the intended words and operators. */
  lemma WrappedCommandReads(title: string, adapter: Adapter, worktree: string, backend: Backend)
    ensures Tokens(WrappedRunCommand(title, adapter, worktree, backend))
         == Some(WrappedTokens(title, adapter, worktree, backend))
  {
    match backend {
      case Local => LocalCommandReads(title, adapter, worktree);
      case Docker(image) =>
        var inner := ContainerCmd(adapter, title);
        DockerReads(image, worktree, inner, EXIT_TAIL);
        ReadsThenExit(DockerRunCommand(image, worktree, inner), DockerArgv(image, worktree, inner));
    }
  }
}
