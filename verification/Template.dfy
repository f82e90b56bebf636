/** A content template as loaded, and what its tags stand for. */
module Template {
  import opened Bytes
  import opened Transform
  import opened Program

  /** One match of the content pattern: the text before a tag, and the tag's key. */
  datatype Piece = Piece(text: Text, key: Text)

  datatype Source = Source(pieces: seq<Piece>, tail: Text)

  datatype Template = Template(env: Env, macros: map<Text, Text>, choices: map<Text, Choice>, sources: seq<Source>)

  // ---- what a tag stands for ----

  function Expanded(t: Template, key: Text): Text {
    if key in t.macros then t.macros[key] else key
  }

  /** Fields first, then dynamic content, then expressions; an unknown tag vanishes, and a
      key with a parenthesis that does not compile ends the process. */
  function Resolve(t: Template, key: Text): Option<Item> {
    if key in t.env.fields then Some(Field(t.env.fields[key]))
    else if key in t.choices then Some(Dynamic(key))
    else if OPEN in key then
      match Compile(t.env, key)
      case Tree(e) => Some(Transformed(e))
      case Empty => None
      case Fatal => Some(Broken)
    else None
  }

  function LitItems(s: Text): seq<Item> {
    if s == [] then [] else [Lit(s)]
  }

  function KeyItems(t: Template, key: Text): seq<Item> {
    match Resolve(t, key)
    case Some(item) => [item]
    case None => []
  }

  function PieceItems(t: Template, p: Piece): seq<Item> {
    LitItems(p.text) + KeyItems(t, Expanded(t, p.key))
  }

  function PiecesItems(t: Template, pieces: seq<Piece>): seq<Item> {
    if pieces == [] then []
    else PiecesItems(t, pieces[..|pieces| - 1]) + PieceItems(t, pieces[|pieces| - 1])
  }

  function Items(t: Template, id: nat): seq<Item>
    requires id < |t.sources|
  {
    PiecesItems(t, t.sources[id].pieces) + LitItems(t.sources[id].tail)
  }

  /** The tag keys that get a memo slot when these pieces are compiled. */
  function KeysOf(t: Template, pieces: seq<Piece>): set<Text> {
    set p | p in pieces && Resolve(t, Expanded(t, p.key)).Some? :: Expanded(t, p.key)
  }

  function Keys(t: Template, id: nat): set<Text>
    requires id < |t.sources|
  {
    KeysOf(t, t.sources[id].pieces)
  }

  function TagKeys(t: Template, key: Text): set<Text> {
    if Resolve(t, key).Some? then {key} else {}
  }

  lemma PiecesStep(t: Template, pieces: seq<Piece>, i: nat)
    requires i < |pieces|
    ensures KeysOf(t, pieces[..i + 1]) == KeysOf(t, pieces[..i]) + TagKeys(t, Expanded(t, pieces[i].key))
    ensures PiecesItems(t, pieces[..i + 1]) == PiecesItems(t, pieces[..i]) + PieceItems(t, pieces[i])
  {
    var before, after := pieces[..i], pieces[..i + 1];
    assert after[..i] == before && after[i] == pieces[i] && after == before + [pieces[i]];
  }

  lemma PiecesWhole(t: Template, pieces: seq<Piece>)
    ensures KeysOf(t, pieces[..|pieces|]) == KeysOf(t, pieces)
    ensures PiecesItems(t, pieces[..|pieces|]) == PiecesItems(t, pieces)
  {
    assert pieces[..|pieces|] == pieces;
  }

  lemma {:induction false} PiecesContain(t: Template, pieces: seq<Piece>, i: nat, item: Item)
    requires i < |pieces| && item in PieceItems(t, pieces[i])
    ensures item in PiecesItems(t, pieces)
  {
    if i < |pieces| - 1 {
      PiecesContain(t, pieces[..|pieces| - 1], i, item);
    }
  }

  /** `p` is `t` with its tags resolved. */
  ghost predicate Linked(t: Template, p: Program) {
    && p.env == t.env && p.choices == t.choices
    && |p.bodies| == |t.sources| && |p.keys| == |t.sources|
    && (forall id {:trigger Items(t, id)} :: 0 <= id < |t.sources| ==> p.bodies[id] == Items(t, id))
    && (forall id {:trigger Keys(t, id)} :: 0 <= id < |t.sources| ==> p.keys[id] == Keys(t, id))
  }

  function Link(t: Template): (p: Program)
    ensures Linked(t, p)
  {
    Program(t.env, t.choices,
            seq(|t.sources|, id requires 0 <= id < |t.sources| => Items(t, id)),
            seq(|t.sources|, id requires 0 <= id < |t.sources| => Keys(t, id)))
  }
}
