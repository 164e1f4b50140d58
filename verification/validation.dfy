/** The validation error taxonomy: every kind belongs to the node or the edge
    family, and renders as the family prefix, one space, then its message. */
module Validation {

  datatype Family = NodesFamily | EdgesFamily

  datatype ValidationError =
    | WrongTypeOfNodes
    | WrongTypeOfNodeIdentifier
    | WrongTypeOfNodeAttributes
    | WrongTypeOfEdges
    | WrongTypeOfCouple
    | WrongLengthOfCouple
    | WrongTypeOfNodeIdentifierInCouple
    | WrongTypeOfMultipleEdges
    | WrongLengthOfMultipleEdges
    | WrongTypeOfEdgeIdentifier
    | WrongTypeOfEdgeAttributes
    | DuplicationInEdgeIdentifiers(nodeL: string, nodeR: string)

  function FamilyOf(e: ValidationError): Family {
    match e
    case WrongTypeOfNodes | WrongTypeOfNodeIdentifier | WrongTypeOfNodeAttributes => NodesFamily
    case _ => EdgesFamily
  }

  function Prefix(f: Family): string {
    match f
    case NodesFamily => "Nodes validation exception!"
    case EdgesFamily => "Edges validation exception!"
  }

  const IdentifierMessage := "Wrong type of node identifier: node identifier type must be Identifier!"

  /** The message each exception class builds. */
  function Message(e: ValidationError): string {
    match e
    case WrongTypeOfNodes => "Wrong type of nodes: nodes type must be Dict or Iterable!"
    case WrongTypeOfNodeIdentifier => IdentifierMessage
    case WrongTypeOfNodeAttributes => "Wrong type of node attributes: node attributes type must be Dict!"
    case WrongTypeOfEdges => "Wrong type of edges: edges type must be Dict or Iterable!"
    case WrongTypeOfCouple => "Wrong type of couple: couple type must be Tuple!"
    case WrongLengthOfCouple => "Wrong length of couple: couple length must be equal 2!"
    case WrongTypeOfNodeIdentifierInCouple => IdentifierMessage
    case WrongTypeOfMultipleEdges => "Wrong type of multiple edges: multiple edges type must be Dict!"
    case WrongLengthOfMultipleEdges =>
      "Wrong length of multiple edges! Multiple edges length must be more than 0!"
    case WrongTypeOfEdgeIdentifier =>
      "Wrong type of edge identifier: edge identifier type must be Identifier!"
    case WrongTypeOfEdgeAttributes =>
      "Wrong type of edge attributes: edge attributes type must be Dict!"
    case DuplicationInEdgeIdentifiers(l, r) =>
      DuplicationHead + l + " and " + r + DuplicationTail
  }

  const DuplicationHead := "Duplication in edge identifiers incident to nodes "
  const DuplicationTail := "! Please, resolve conflict and try again!"

  /** The text of a raised validation error. */
  function Render(e: ValidationError): (text: string)
    ensures |text| > |Prefix(FamilyOf(e))|
    ensures text[..|Prefix(FamilyOf(e))|] == Prefix(FamilyOf(e))
    ensures text[|Prefix(FamilyOf(e))|] == ' '
    ensures text[|Prefix(FamilyOf(e))| + 1..] == Message(e)
  {
    Prefix(FamilyOf(e)) + " " + Message(e)
  }

  /** The node family has exactly three kinds. */
  lemma {:induction false} NodeFamilyKinds(e: ValidationError)
    ensures FamilyOf(e) == NodesFamily <==>
      e == WrongTypeOfNodes || e == WrongTypeOfNodeIdentifier || e == WrongTypeOfNodeAttributes
  {
  }

  /** The edge family has exactly nine kinds. */
  lemma {:induction false} EdgeFamilyKinds(e: ValidationError)
    ensures FamilyOf(e) == EdgesFamily <==>
      || e.WrongTypeOfEdges? || e.WrongTypeOfCouple? || e.WrongLengthOfCouple?
      || e.WrongTypeOfNodeIdentifierInCouple? || e.WrongTypeOfMultipleEdges?
      || e.WrongLengthOfMultipleEdges? || e.WrongTypeOfEdgeIdentifier?
      || e.WrongTypeOfEdgeAttributes? || e.DuplicationInEdgeIdentifiers?
  {
  }

  /** The rendered text tells the two families apart: their prefixes already
      differ in the first character. */
  lemma {:induction false} RenderSeparatesFamilies(a: ValidationError, b: ValidationError)
    requires FamilyOf(a) != FamilyOf(b)
    ensures Render(a) != Render(b)
  {
    StartsWith(Render(a), Prefix(FamilyOf(a)));
    StartsWith(Render(b), Prefix(FamilyOf(b)));
    assert Prefix(FamilyOf(a))[0] != Prefix(FamilyOf(b))[0];
  }

  lemma {:induction false} StartsWith(text: string, p: string)
    requires 0 < |p| <= |text| && text[..|p|] == p
    ensures text[0] == p[0]
  {
    assert text[..|p|][0] == text[0];
  }

  /** The identifier error raised for a couple endpoint shares its message
      with the node-family identifier error; only the prefix differs. */
  lemma {:induction false} InCoupleDiffersOnlyInPrefix()
    ensures Message(WrongTypeOfNodeIdentifierInCouple) == Message(WrongTypeOfNodeIdentifier)
    ensures Render(WrongTypeOfNodeIdentifierInCouple) != Render(WrongTypeOfNodeIdentifier)
    ensures Render(WrongTypeOfNodeIdentifierInCouple)[|Prefix(EdgesFamily)|..]
         == Render(WrongTypeOfNodeIdentifier)[|Prefix(NodesFamily)|..]
  {
    RenderSeparatesFamilies(WrongTypeOfNodeIdentifierInCouple, WrongTypeOfNodeIdentifier);
  }

  /** The duplication message names the left node, then the right node. */
  lemma {:induction false} DuplicationNamesLeftThenRight(l: string, r: string)
    ensures var m := Message(DuplicationInEdgeIdentifiers(l, r));
      var i := |DuplicationHead|;
      && m[i..i + |l|] == l
      && m[i + |l|..i + |l| + 5] == " and "
      && m[i + |l| + 5..i + |l| + 5 + |r|] == r
  {
    var m := Message(DuplicationInEdgeIdentifiers(l, r));
    assert m == DuplicationHead + l + " and " + r + DuplicationTail;
  }

  /** Two different duplication errors can render to the same text, so the
      offending couple can only be recovered from the structured error. */
  lemma {:induction false} DuplicationTextIsAmbiguous()
    ensures DuplicationInEdgeIdentifiers("a and b", "c") != DuplicationInEdgeIdentifiers("a", "b and c")
    ensures Render(DuplicationInEdgeIdentifiers("a and b", "c"))
         == Render(DuplicationInEdgeIdentifiers("a", "b and c"))
  {
    assert "a and b" + " and " + "c" == "a" + " and " + "b and c";
  }
}
