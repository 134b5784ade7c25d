/** The parser accepts exactly the texts of the grammar that are within the limits. */
module ParserExact {
  import opened Base
  import opened Tree
  import opened ParserSpec
  import opened Grammar
  import opened ParserComplete
  import opened ParserSound

  /** Soundness: an accepted text derives the tree, the tree is within the limits, and its nodes are counted. */
  lemma DocumentSound(e: Env, n: nat) returns (d: Document)
    requires ParseDocument(e, n).Ok?
    ensures IsDerivation(d, e.src, ParseDocument(e, n).value.value, e.pal)
    ensures Fits(ParseDocument(e, n).value.value, e.l, 0)
    ensures ParseDocument(e, n).value.nodes == n + Nodes(ParseDocument(e, n).value.value) <= e.l.nodes
  {
    hide ParseValue, At, ValueText, Meaning, WellFormed, Fits, Nodes;
    var s, r := e.src, ParseValue(e, 0, 1, n).value;
    var v := ValueSound(e, 0, 1, n);
    WsRunSound(s, 0);
    WsRunSound(s, r.next);
    d := Document(WsRun(s, 0), v, WsRun(s, r.next));
    var p := SkipWs(s, 0);
    AtConcat(s, p, ValueText(v), d.after);
    AtConcat(s, 0, d.before, ValueText(v) + d.after);
    AtSlice(s, 0, DocumentText(d));
    assert s[0..|s|] == s;
  }

  /**
    * json_parse accepts a text and returns the tree t exactly when the text derives t under the
    * grammar and t is within the limits; the node count then grows by exactly the nodes of t.
    */
  lemma ParseIffDerives(e: Env, n: nat, t: Json)
    ensures (ParseDocument(e, n).Ok? && ParseDocument(e, n).value.value == t)
      <==> Derives(e.src, t, e.pal) && Fits(t, e.l, 0) && n + Nodes(t) <= e.l.nodes
    ensures ParseDocument(e, n).Ok? ==>
      ParseDocument(e, n).value.nodes == n + Nodes(ParseDocument(e, n).value.value)
  {
    hide ParseDocument, Fits, Nodes, IsDerivation;
    if ParseDocument(e, n).Ok? {
      var d := DocumentSound(e, n);
    }
    if Derives(e.src, t, e.pal) && Fits(t, e.l, 0) && n + Nodes(t) <= e.l.nodes {
      var d :| IsDerivation(d, e.src, t, e.pal);
      DocumentComplete(e, n, d, t);
    }
  }

  /** A text derives at most one tree. */
  lemma Unambiguous(s: bytes, t: Json, t': Json, pal: Pal)
    requires Derives(s, t, pal) && Derives(s, t', pal)
    ensures t == t'
  {
    hide Derives, Fits, Nodes, ParseDocument;
    var a := RoomFor(t, 0);
    var b := RoomFor(t', 0);
    var l := Larger(a, b);
    FitsMore(t, a, l, 0);
    FitsMore(t', b, l, 0);
    ParseIffDerives(Env(s, l, pal), 0, t);
    ParseIffDerives(Env(s, l, pal), 0, t');
  }
}
