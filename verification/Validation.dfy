/** What a configuration edit must pass before it is written: its kind is known, it parses, and a JSON
    document names no missing command. */
module Validation {
  import opened Basics
  import Jsonc
  import McpCommands

  /** The parsers and the commands on the search path at the time of the edit. */
  datatype World = World(
    utf8: Bytes -> Option<string>,
    json: Bytes -> Option<McpCommands.Json>,
    jsonText: string -> Option<McpCommands.Json>,
    isToml: string -> bool,
    isYaml: Bytes -> bool,
    known: string -> bool)

  datatype Kind = Json | Jsonc | Toml | Yaml | PlainText

  datatype Verdict =
    | Accepted
    | UnsupportedKind
    | InvalidUtf8
    | InvalidJson
    | InvalidToml
    | InvalidYaml
    | MissingCommand(command: string)

  function KindOf(kind: string): Option<Kind> {
    match kind
    case "json" => Some(Json)
    case "jsonc" => Some(Jsonc)
    case "toml" => Some(Toml)
    case "yaml" => Some(Yaml)
    case "yml" => Some(Yaml)
    case "text" => Some(PlainText)
    case _ => None
  }

  function CheckDocument(w: World, parsed: Option<McpCommands.Json>): Verdict {
    match parsed
    case None => InvalidJson
    case Some(v) =>
      match McpCommands.Walk(v, w.known)
      case None => Accepted
      case Some(c) => MissingCommand(c)
  }

  function Validate(w: World, kind: Kind, bytes: Bytes): Verdict {
    match kind
    case Json => CheckDocument(w, w.json(bytes))
    case Jsonc =>
      (match w.utf8(bytes)
       case None => InvalidUtf8
       case Some(text) => CheckDocument(w, w.jsonText(Jsonc.Strip(text))))
    case Toml =>
      (match w.utf8(bytes)
       case None => InvalidUtf8
       case Some(text) => if w.isToml(text) then Accepted else InvalidToml)
    case Yaml => if w.isYaml(bytes) then Accepted else InvalidYaml
    case PlainText => if w.utf8(bytes).Some? then Accepted else InvalidUtf8
  }

  function Check(w: World, kind: string, bytes: Bytes): Verdict {
    match KindOf(kind)
    case None => UnsupportedKind
    case Some(k) => Validate(w, k, bytes)
  }

  /** The document whose commands count, where the kind has one and it parses. */
  ghost function Document(w: World, kind: string, bytes: Bytes): Option<McpCommands.Json> {
    if kind == "json" then w.json(bytes)
    else if kind == "jsonc" && w.utf8(bytes).Some? then w.jsonText(Jsonc.Strip(w.utf8(bytes).value))
    else None
  }

  ghost predicate AllKnown(v: McpCommands.Json, known: string -> bool) {
    forall place, c :: !McpCommands.Missing(v, place, known, c)
  }

  /** Nothing is accepted that should not be, and nothing refused that should. */
  lemma AcceptedIff(w: World, kind: string, bytes: Bytes)
    ensures Check(w, kind, bytes) == Accepted <==>
              || (Document(w, kind, bytes).Some? && AllKnown(Document(w, kind, bytes).value, w.known))
              || (kind == "toml" && w.utf8(bytes).Some? && w.isToml(w.utf8(bytes).value))
              || ((kind == "yaml" || kind == "yml") && w.isYaml(bytes))
              || (kind == "text" && w.utf8(bytes).Some?)
  {
    hide McpCommands.Missing, McpCommands.First, McpCommands.Walk;
    if Document(w, kind, bytes).Some? {
      var v := Document(w, kind, bytes).value;
      McpCommands.WalkIsExact(v, w.known);
      WalkMeaning(v, w.known);
    }
  }

  lemma WalkMeaning(v: McpCommands.Json, known: string -> bool)
    ensures McpCommands.Walk(v, known) == None <==> AllKnown(v, known)
  {
    hide McpCommands.Missing, McpCommands.Walk;
    McpCommands.WalkIsExact(v, known);
    if McpCommands.Walk(v, known).Some? {
      var place :| McpCommands.First(v, place, known, McpCommands.Walk(v, known).value);
      assert McpCommands.Missing(v, place, known, McpCommands.Walk(v, known).value);
    }
  }

  /** A refusal over a command names the first missing one of the document. */
  lemma MissingIsFirst(w: World, kind: string, bytes: Bytes)
    requires Check(w, kind, bytes).MissingCommand?
    ensures Document(w, kind, bytes).Some?
    ensures exists place ::
              McpCommands.First(Document(w, kind, bytes).value, place, w.known, Check(w, kind, bytes).command)
  {
    McpCommands.WalkIsExact(Document(w, kind, bytes).value, w.known);
  }

  /** Comments cannot change the verdict: texts with the same tokens outside comments are judged alike. */
  lemma CommentsDoNotMatter(w: World, a: Bytes, b: Bytes)
    requires w.utf8(a).Some? && w.utf8(b).Some?
    requires Jsonc.Kept(Jsonc.Lex(w.utf8(a).value)) == Jsonc.Kept(Jsonc.Lex(w.utf8(b).value))
    ensures Check(w, "jsonc", a) == Check(w, "jsonc", b)
  {
    hide Jsonc.Kept, Jsonc.Strip;
    var s, t := w.utf8(a).value, w.utf8(b).value;
    Jsonc.StripKeepsTokens(s);
    Jsonc.StripKeepsTokens(t);
    Jsonc.KeptRenders(Jsonc.Lex(s));
    Jsonc.KeptRenders(Jsonc.Lex(t));
  }

  /** Each refusal says what was wrong first: the kind, then the encoding, then the syntax, then a command. */
  lemma RefusalIs(w: World, kind: string, bytes: Bytes)
    ensures var v, utf8 := Check(w, kind, bytes), w.utf8(bytes);
            && (v == UnsupportedKind <==> kind !in {"json", "jsonc", "toml", "yaml", "yml", "text"})
            && (v == InvalidUtf8 <==> kind in {"jsonc", "toml", "text"} && utf8 == None)
            && (v == InvalidJson <==>
                  || (kind == "json" && w.json(bytes) == None)
                  || (kind == "jsonc" && utf8.Some? && w.jsonText(Jsonc.Strip(utf8.value)) == None))
            && (v == InvalidToml <==> kind == "toml" && utf8.Some? && !w.isToml(utf8.value))
            && (v == InvalidYaml <==> kind in {"yaml", "yml"} && !w.isYaml(bytes))
            && (v.MissingCommand? <==>
                  Document(w, kind, bytes).Some? && !AllKnown(Document(w, kind, bytes).value, w.known))
  {
    hide McpCommands.Missing, McpCommands.First, McpCommands.Walk, Jsonc.Strip, AllKnown;
    if Document(w, kind, bytes).Some? { WalkMeaning(Document(w, kind, bytes).value, w.known); }
  }
}
