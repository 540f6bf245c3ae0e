/** The command check a configuration edit must pass: the walk over a parsed document, against the
    places in that document where a missing command stands. */
module McpCommands {
  import opened Basics

  datatype Field = Field(key: string, value: Json)

  /** A parsed document; fields are listed in the order the walk visits them. */
  datatype Json = Object(fields: seq<Field>) | Array(items: seq<Json>) | Text(s: string) | Scalar

  // ---------------------------------------------------------------- the walk

  /** The visitor: a string under the key `command` must name a known command. */
  function Visit(key: string, value: Json, known: string -> bool): Option<string> {
    if key == "command" && value.Text? && !known(value.s) then Some(value.s) else None
  }

  /** The command the walk stops at, if any. */
  function Walk(v: Json, known: string -> bool): Option<string>
    decreases v, 1
  {
    match v
    case Object(fields) => WalkFields(fields, known)
    case Array(items) => WalkItems(items, known)
    case _ => None
  }

  function WalkFields(fields: seq<Field>, known: string -> bool): Option<string>
    decreases fields, 0
  {
    if fields == [] then None
    else
      var Field(key, child) := fields[0];
      if Visit(key, child, known).Some? then Visit(key, child, known)
      else if Walk(child, known).Some? then Walk(child, known)
      else WalkFields(fields[1..], known)
  }

  function WalkItems(items: seq<Json>, known: string -> bool): Option<string>
    decreases items, 0
  {
    if items == [] then None
    else if Walk(items[0], known).Some? then Walk(items[0], known)
    else WalkItems(items[1..], known)
  }

  // ---------------------------------------------------------------- places in a document

  function Width(v: Json): nat {
    match v case Object(fields) => |fields| case Array(items) => |items| case _ => 0
  }

  function Child(v: Json, i: nat): Json
    requires i < Width(v)
  {
    if v.Object? then v.fields[i].value else v.items[i]
  }

  /** Following the child indices of `place` leads to a field with the key `command` whose value is the
      string `c`, and no command is known by that name. */
  ghost predicate Missing(v: Json, place: seq<nat>, known: string -> bool, c: string)
    decreases |place|
  {
    && place != [] && place[0] < Width(v)
    && if |place| == 1 then
         v.Object? && v.fields[place[0]].key == "command" && v.fields[place[0]].value == Text(c) && !known(c)
       else Missing(Child(v, place[0]), place[1..], known, c)
  }

  /** Document order: an ancestor before what it holds, an earlier child before a later one. */
  ghost predicate Before(p: seq<nat>, q: seq<nat>) {
    q != [] && (p == [] || p[0] < q[0] || (p[0] == q[0] && Before(p[1..], q[1..])))
  }

  ghost predicate First(v: Json, place: seq<nat>, known: string -> bool, c: string) {
    && Missing(v, place, known, c)
    && forall q, d :: Missing(v, q, known, d) ==> q == place || Before(place, q)
  }

  /** What the walk must answer for `v`. */
  ghost predicate Exact(v: Json, known: string -> bool, answer: Option<string>) {
    match answer
    case None => forall q, d :: !Missing(v, q, known, d)
    case Some(c) => exists place :: First(v, place, known, c)
  }

  // ---------------------------------------------------------------- proof

  /** A document without its first child, if it has one. */
  function Rest(v: Json): Json
    requires Width(v) > 0
  {
    if v.Object? then Object(v.fields[1..]) else Array(v.items[1..])
  }

  function Later(place: seq<nat>): seq<nat>
    requires place != []
  {
    [place[0] + 1] + place[1..]
  }

  lemma MissingLater(v: Json, q: seq<nat>, known: string -> bool, c: string)
    requires Width(v) > 0 && q != []
    ensures Missing(v, Later(q), known, c) <==> Missing(Rest(v), q, known, c)
  {
    assert Later(q)[1..] == q[1..];
  }

  /** A place that is not under the first child is a place of the rest. */
  lemma SplitPlace(v: Json, q: seq<nat>, known: string -> bool, c: string) returns (r: seq<nat>)
    requires Width(v) > 0 && Missing(v, q, known, c) && q[0] > 0
    ensures r != [] && q == Later(r) && Missing(Rest(v), r, known, c)
  {
    r := [q[0] - 1] + q[1..];
    assert q == Later(r);
    MissingLater(v, r, known, c);
  }

  lemma UnderFirst(v: Json, q: seq<nat>, known: string -> bool, c: string)
    requires Width(v) > 0 && q != []
    ensures Missing(v, [0] + q, known, c) <==> Missing(Child(v, 0), q, known, c)
  {
    assert ([0] + q)[1..] == q;
  }

  /** The first child itself is what is missing. */
  lemma FoundHere(v: Json, known: string -> bool, c: string)
    requires v.Object? && v.fields != [] && Visit(v.fields[0].key, v.fields[0].value, known) == Some(c)
    ensures Exact(v, known, Some(c))
  {
    assert Missing(v, [0], known, c);
    forall q, d | Missing(v, q, known, d) ensures q == [0] || Before([0], q) {
      if q[0] == 0 && |q| > 1 { assert Before([0][1..], q[1..]); }
      if |q| == 1 && q[0] == 0 { assert q == [0]; }
    }
    assert First(v, [0], known, c);
  }

  ghost predicate NotHere(v: Json, known: string -> bool) {
    v.Object? && v.fields != [] ==> Visit(v.fields[0].key, v.fields[0].value, known) == None
  }

  lemma InsideFirst(v: Json, q: seq<nat>, known: string -> bool, c: string)
    requires NotHere(v, known) && Missing(v, q, known, c)
    ensures q[0] == 0 ==> |q| > 1 && Missing(Child(v, 0), q[1..], known, c)
  {
  }

  /** Something is missing inside the first child. */
  lemma FoundInside(v: Json, known: string -> bool, c: string)
    requires Width(v) > 0 && NotHere(v, known) && Exact(Child(v, 0), known, Some(c))
    ensures Exact(v, known, Some(c))
  {
    var p :| First(Child(v, 0), p, known, c);
    UnderFirst(v, p, known, c);
    forall q, d | Missing(v, q, known, d) ensures q == [0] + p || Before([0] + p, q) {
      assert ([0] + p)[1..] == p;
      InsideFirst(v, q, known, d);
      if q[0] == 0 { assert q == [0] + q[1..]; }
    }
    assert First(v, [0] + p, known, c);
  }

  /** Nothing is missing at or inside the first child: the rest decides. */
  lemma FoundLater(v: Json, known: string -> bool, answer: Option<string>)
    requires Width(v) > 0 && NotHere(v, known)
    requires Exact(Child(v, 0), known, None) && Exact(Rest(v), known, answer)
    ensures Exact(v, known, answer)
  {
    forall q, d | Missing(v, q, known, d) ensures q[0] > 0 {
      InsideFirst(v, q, known, d);
    }
    match answer {
      case None =>
        forall q, d ensures !Missing(v, q, known, d) {
          if Missing(v, q, known, d) { var r := SplitPlace(v, q, known, d); }
        }
      case Some(c) =>
        var p :| First(Rest(v), p, known, c);
        MissingLater(v, p, known, c);
        forall q, d | Missing(v, q, known, d) ensures q == Later(p) || Before(Later(p), q) {
          var r := SplitPlace(v, q, known, d);
          assert Later(p)[1..] == p[1..] && Later(r)[1..] == r[1..];
        }
        assert First(v, Later(p), known, c);
    }
  }

  lemma {:induction false} FieldsExact(fields: seq<Field>, known: string -> bool)
    ensures Exact(Object(fields), known, WalkFields(fields, known))
    decreases fields, 0
  {
    hide Exact;
    var v := Object(fields);
    if fields == [] {
      EmptyExact(v, known);
    } else {
      var Field(key, child) := fields[0];
      WalkIsExact(child, known);
      if Visit(key, child, known).Some? {
        FoundHere(v, known, Visit(key, child, known).value);
      } else if Walk(child, known).Some? {
        FoundInside(v, known, Walk(child, known).value);
      } else {
        FieldsExact(fields[1..], known);
        FoundLater(v, known, WalkFields(fields[1..], known));
      }
    }
  }

  lemma {:induction false} ItemsExact(items: seq<Json>, known: string -> bool)
    ensures Exact(Array(items), known, WalkItems(items, known))
    decreases items, 0
  {
    hide Exact;
    var v := Array(items);
    if items == [] {
      EmptyExact(v, known);
    } else {
      WalkIsExact(items[0], known);
      if Walk(items[0], known).Some? {
        FoundInside(v, known, Walk(items[0], known).value);
      } else {
        ItemsExact(items[1..], known);
        FoundLater(v, known, WalkItems(items[1..], known));
      }
    }
  }

  lemma EmptyExact(v: Json, known: string -> bool)
    requires Width(v) == 0
    ensures Exact(v, known, None)
  {
  }

  /** Main result: the walk accepts exactly the documents in which every `command` at any depth is
      known, and otherwise names the first missing one in document order. */
  lemma {:induction false} WalkIsExact(v: Json, known: string -> bool)
    ensures Exact(v, known, Walk(v, known))
    decreases v, 1
  {
    match v {
      case Object(fields) => FieldsExact(fields, known);
      case Array(items) => ItemsExact(items, known);
      case _ => EmptyExact(v, known);
    }
  }
}
