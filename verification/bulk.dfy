/** Bulk loading through the `nodes` and `edges` setters, and construction.
    A setter empties its store, checks the whole input in a fixed order of
    passes before anything is added, and then replays the input as a
    sequence of `add_node` or `add_edge` calls. */
module Bulk {
  import opened Wrappers
  import opened Stores
  import opened Validation
  import opened Engine

  /* ---------------------------------------------------------- input checks */

  /** A couple as the edge input spells it: a 2-tuple of identifiers. */
  predicate IsCouple(x: Value) {
    x.Tuple? && |x.items| == 2 && x.items[0].Ident? && x.items[1].Ident?
  }

  function CoupleOf(x: Value): Couple
    requires IsCouple(x)
  {
    (x.items[0].id, x.items[1].id)
  }

  /** What iterating a string yields: its one-character strings, in order. */
  function Chars(s: string): (cs: seq<Value>)
    ensures |cs| == |s|
    ensures forall i | 0 <= i < |s| :: cs[i] == Ident([s[i]])
  {
    seq(|s|, i requires 0 <= i < |s| => Ident([s[i]]))
  }

  /** An input the setters iterate without being a dictionary: a list, a
      tuple, or a string, which yields its characters. */
  predicate IsSequence(x: Value) {
    x.List? || x.Tuple? || x.Ident?
  }

  function Items(x: Value): (items: seq<Value>)
    requires IsSequence(x)
  {
    if x.Ident? then Chars(x.id) else x.items
  }

  /** Reference reading of the couple checks, one couple at a time: the
      index of the first check this couple fails, or 3 when it passes them. */
  function CoupleRank(x: Value): (rank: nat)
    ensures rank <= 3
    ensures rank == 3 <==> IsCouple(x)
  {
    if !x.Tuple? then 0
    else if |x.items| != 2 then 1
    else if !x.items[0].Ident? || !x.items[1].Ident? then 2
    else 3
  }

  /** Couple `i` fails the lowest-numbered couple check of all couples. */
  predicate LowestCoupleFailure(cs: seq<Value>, i: int) {
    && 0 <= i < |cs|
    && CoupleRank(cs[i]) < 3
    && forall j | 0 <= j < |cs| :: CoupleRank(cs[j]) >= CoupleRank(cs[i])
  }

  /** `check_couple_type`, `check_couple_len` and
      `check_node_identifier_type`: three passes over all couples. */
  function CheckCouples(cs: seq<Value>): (r: Option<ValidationError>)
    ensures r.None? <==> forall i | 0 <= i < |cs| :: IsCouple(cs[i])
    ensures r.Some? ==> r.value in {WrongTypeOfCouple, WrongLengthOfCouple, WrongTypeOfNodeIdentifierInCouple}
  {
    if exists i | 0 <= i < |cs| :: !cs[i].Tuple? then Some(WrongTypeOfCouple)
    else if exists i | 0 <= i < |cs| :: |cs[i].items| != 2 then Some(WrongLengthOfCouple)
    else if exists i | 0 <= i < |cs| :: !cs[i].items[0].Ident? || !cs[i].items[1].Ident? then
      Some(WrongTypeOfNodeIdentifierInCouple)
    else None
  }

  /** The remaining passes of the dictionary form: every value is a
      dictionary, none is empty, every inner key is an identifier, every
      inner value is a dictionary. */
  function CheckMultiples(ms: seq<Value>): (r: Option<ValidationError>)
    ensures r.None? <==> forall i | 0 <= i < |ms| ::
      && ms[i].Dict? && |ms[i].entries| > 0
      && forall j | 0 <= j < |ms[i].entries| :: ms[i].entries[j].0.Ident? && ms[i].entries[j].1.Dict?
    ensures r.Some? ==>
      r.value in {WrongTypeOfMultipleEdges, WrongLengthOfMultipleEdges, WrongTypeOfEdgeIdentifier, WrongTypeOfEdgeAttributes}
  {
    if exists i | 0 <= i < |ms| :: !ms[i].Dict? then Some(WrongTypeOfMultipleEdges)
    else if exists i | 0 <= i < |ms| :: |ms[i].entries| == 0 then Some(WrongLengthOfMultipleEdges)
    else if exists i, j | 0 <= i < |ms| && 0 <= j < |ms[i].entries| :: !ms[i].entries[j].0.Ident? then
      Some(WrongTypeOfEdgeIdentifier)
    else if exists i, j | 0 <= i < |ms| && 0 <= j < |ms[i].entries| :: !ms[i].entries[j].1.Dict? then
      Some(WrongTypeOfEdgeAttributes)
    else None
  }

  function Firsts(es: seq<(Value, Value)>): (ks: seq<Value>)
    ensures |ks| == |es| && forall i | 0 <= i < |es| :: ks[i] == es[i].0
  {
    seq(|es|, i requires 0 <= i < |es| => es[i].0)
  }

  function Seconds(es: seq<(Value, Value)>): (vs: seq<Value>)
    ensures |vs| == |es| && forall i | 0 <= i < |es| :: vs[i] == es[i].1
  {
    seq(|es|, i requires 0 <= i < |es| => es[i].1)
  }

  /** All seven passes over a dictionary of edges, couples first. */
  function CheckEdgeDict(es: seq<(Value, Value)>): Option<ValidationError> {
    match CheckCouples(Firsts(es))
    case Some(e) => Some(e)
    case None => CheckMultiples(Seconds(es))
  }

  /** Reference reading of the same checks, one entry at a time: the index
      of the first check this entry fails, or 7 when it passes them all. */
  function EdgeEntryRank(k: Value, m: Value): (rank: nat)
    ensures rank <= 7
  {
    if !k.Tuple? then 0
    else if |k.items| != 2 then 1
    else if !k.items[0].Ident? || !k.items[1].Ident? then 2
    else if !m.Dict? then 3
    else if |m.entries| == 0 then 4
    else if exists j | 0 <= j < |m.entries| :: !m.entries[j].0.Ident? then 5
    else if exists j | 0 <= j < |m.entries| :: !m.entries[j].1.Dict? then 6
    else 7
  }

  /** The error raised by the check of the given index. */
  function EdgeCheckError(rank: nat): ValidationError
    requires rank < 7
  {
    [WrongTypeOfCouple, WrongLengthOfCouple, WrongTypeOfNodeIdentifierInCouple,
     WrongTypeOfMultipleEdges, WrongLengthOfMultipleEdges, WrongTypeOfEdgeIdentifier,
     WrongTypeOfEdgeAttributes][rank]
  }

  /** An edge dictionary that passes every check. */
  predicate AdmissibleEdgeDict(es: seq<(Value, Value)>) {
    forall i | 0 <= i < |es| :: EdgeEntryRank(es[i].0, es[i].1) == 7
  }

  /** Entry `i` fails the lowest-numbered check of all entries. */
  predicate LowestFailure(es: seq<(Value, Value)>, i: int) {
    && 0 <= i < |es|
    && EdgeEntryRank(es[i].0, es[i].1) < 7
    && forall j | 0 <= j < |es| :: EdgeEntryRank(es[j].0, es[j].1) >= EdgeEntryRank(es[i].0, es[i].1)
  }

  /** The passes run over the whole input, one check at a time, so the error
      raised is that of the lowest-numbered check any entry fails, wherever
      that entry stands; and the dictionary is accepted exactly when every
      entry passes every check. */
  lemma {:induction false} EdgeDictReportsLowestCheck(es: seq<(Value, Value)>)
    ensures CheckEdgeDict(es).None? <==> AdmissibleEdgeDict(es)
    ensures CheckEdgeDict(es).Some? ==>
      exists i :: LowestFailure(es, i) && CheckEdgeDict(es).value == EdgeCheckError(EdgeEntryRank(es[i].0, es[i].1))
  {
    var ks := Firsts(es);
    if exists i | 0 <= i < |ks| :: !ks[i].Tuple? {
      var i :| 0 <= i < |ks| && !ks[i].Tuple?;
      CoupleRankFloor(es, i, 0);
    } else if exists i | 0 <= i < |ks| :: |ks[i].items| != 2 {
      var i :| 0 <= i < |ks| && |ks[i].items| != 2;
      CoupleRankFloor(es, i, 1);
    } else if exists i | 0 <= i < |ks| :: !ks[i].items[0].Ident? || !ks[i].items[1].Ident? {
      var i :| 0 <= i < |ks| && (!ks[i].items[0].Ident? || !ks[i].items[1].Ident?);
      CoupleRankFloor(es, i, 2);
    } else {
      assert forall j | 0 <= j < |es| :: IsCouple(es[j].0) by {
        forall j | 0 <= j < |es| ensures IsCouple(es[j].0) { assert ks[j] == es[j].0; }
      }
      MultiplesReportLowestCheck(es);
    }
  }

  /** Entry `i` fails couple check `r`, and every entry passes the couple
      checks before it: entry `i` is a lowest failure. */
  lemma {:induction false} CoupleRankFloor(es: seq<(Value, Value)>, i: int, r: nat)
    requires r < 3 && 0 <= i < |es|
    requires EdgeEntryRank(es[i].0, es[i].1) == r
    requires r > 0 ==> forall j | 0 <= j < |Firsts(es)| :: Firsts(es)[j].Tuple?
    requires r > 1 ==> forall j | 0 <= j < |Firsts(es)| :: |Firsts(es)[j].items| == 2
    ensures LowestFailure(es, i)
    ensures CheckCouples(Firsts(es)) == Some(EdgeCheckError(r))
  {
    var ks := Firsts(es);
    forall j | 0 <= j < |es| ensures EdgeEntryRank(es[j].0, es[j].1) >= r {
      assert ks[j] == es[j].0;
    }
    assert ks[i] == es[i].0;
  }

  lemma {:induction false} MultiplesReportLowestCheck(es: seq<(Value, Value)>)
    requires forall j | 0 <= j < |es| :: IsCouple(es[j].0)
    ensures CheckCouples(Firsts(es)).None?
    ensures CheckEdgeDict(es).None? <==> AdmissibleEdgeDict(es)
    ensures CheckEdgeDict(es).Some? ==>
      exists i :: LowestFailure(es, i) && CheckEdgeDict(es).value == EdgeCheckError(EdgeEntryRank(es[i].0, es[i].1))
  {
    var ks, ms := Firsts(es), Seconds(es);
    assert forall i | 0 <= i < |ks| :: IsCouple(ks[i]);
    assert CheckEdgeDict(es) == CheckMultiples(ms);
    if exists i | 0 <= i < |ms| :: !ms[i].Dict? {
      var i :| 0 <= i < |ms| && !ms[i].Dict?;
      RankFloor(es, i, 3);
    } else if exists i | 0 <= i < |ms| :: |ms[i].entries| == 0 {
      var i :| 0 <= i < |ms| && |ms[i].entries| == 0;
      RankFloor(es, i, 4);
    } else if exists i, j | 0 <= i < |ms| && 0 <= j < |ms[i].entries| :: !ms[i].entries[j].0.Ident? {
      var i, j :| 0 <= i < |ms| && 0 <= j < |ms[i].entries| && !ms[i].entries[j].0.Ident?;
      RankFloor(es, i, 5);
    } else if exists i, j | 0 <= i < |ms| && 0 <= j < |ms[i].entries| :: !ms[i].entries[j].1.Dict? {
      var i, j :| 0 <= i < |ms| && 0 <= j < |ms[i].entries| && !ms[i].entries[j].1.Dict?;
      RankFloor(es, i, 6);
    } else {
      forall j | 0 <= j < |es| ensures EdgeEntryRank(es[j].0, es[j].1) == 7 {
        assert ms[j] == es[j].1;
      }
    }
  }

  /** Entry `i` fails check `r` of the value passes, and every entry passes
      the checks before it: entry `i` is a lowest failure. */
  lemma {:induction false} RankFloor(es: seq<(Value, Value)>, i: int, r: nat)
    requires 3 <= r < 7 && 0 <= i < |es|
    requires forall j | 0 <= j < |es| :: IsCouple(es[j].0)
    requires EdgeEntryRank(es[i].0, es[i].1) == r
    requires r > 3 ==> forall j | 0 <= j < |Seconds(es)| :: Seconds(es)[j].Dict?
    requires r > 4 ==> forall j | 0 <= j < |Seconds(es)| :: |Seconds(es)[j].entries| != 0
    requires r > 5 ==> forall j, k | 0 <= j < |Seconds(es)| && 0 <= k < |Seconds(es)[j].entries| ::
      Seconds(es)[j].entries[k].0.Ident?
    ensures LowestFailure(es, i)
    ensures CheckMultiples(Seconds(es)) == Some(EdgeCheckError(r))
  {
    var ms := Seconds(es);
    forall j | 0 <= j < |es| ensures EdgeEntryRank(es[j].0, es[j].1) >= r {
      assert ms[j] == es[j].1;
    }
    assert ms[i] == es[i].1;
  }

  /* ------------------------------------------------------- edge validation */

  /** One `add_edge` call made by a bulk load. `wrapped` tells whether the
      call sits inside the `try` that reports a duplicate as
      `DuplicationInEdgeIdentifiers`. */
  datatype EdgeCall = EdgeCall(l: Id, r: Id, id: Option<Id>, attrs: seq<(Value, Value)>, wrapped: bool)

  /** What the dictionary loop needs of an entry to replay it. */
  predicate Replayable(k: Value, m: Value) {
    && IsCouple(k) && m.Dict?
    && forall j | 0 <= j < |m.entries| :: m.entries[j].0.Ident? && m.entries[j].1.Dict?
  }

  /** One call per parallel edge of a couple, in order, each with its own
      identifier and attribute dictionary, inside the `try`. */
  function InnerCalls(l: Id, r: Id, inner: seq<(Value, Value)>): (calls: seq<EdgeCall>)
    requires forall j | 0 <= j < |inner| :: inner[j].0.Ident? && inner[j].1.Dict?
    ensures |calls| == |inner|
    ensures forall j | 0 <= j < |inner| ::
      calls[j] == EdgeCall(l, r, Some(inner[j].0.id), inner[j].1.entries, true)
  {
    if inner == [] then []
    else [EdgeCall(l, r, Some(inner[0].0.id), inner[0].1.entries, true)] + InnerCalls(l, r, inner[1..])
  }

  /** The calls the dictionary loop makes. An entry without parallel edges
      would get one call with a generated identifier, outside the `try`. */
  function EntryCalls(k: Value, m: Value): seq<EdgeCall>
    requires Replayable(k, m)
  {
    var c := CoupleOf(k);
    if |m.entries| == 0 then [EdgeCall(c.0, c.1, None, [], false)]
    else InnerCalls(c.0, c.1, m.entries)
  }

  function DictCalls(es: seq<(Value, Value)>): seq<EdgeCall>
    requires forall i | 0 <= i < |es| :: Replayable(es[i].0, es[i].1)
  {
    if es == [] then [] else EntryCalls(es[0].0, es[0].1) + DictCalls(es[1..])
  }

  /** The calls the list loop makes: one per couple, with a generated
      identifier and no attributes, outside any `try`. */
  function ListCalls(cs: seq<Value>): (calls: seq<EdgeCall>)
    requires forall i | 0 <= i < |cs| :: IsCouple(cs[i])
    ensures |calls| == |cs|
    ensures forall i | 0 <= i < |cs| ::
      calls[i] == EdgeCall(CoupleOf(cs[i]).0, CoupleOf(cs[i]).1, None, [], false)
  {
    if cs == [] then [] else [EdgeCall(CoupleOf(cs[0]).0, CoupleOf(cs[0]).1, None, [], false)] + ListCalls(cs[1..])
  }

  /** `_edges_validation` up to the calls it makes: nothing for no input,
      seven passes then one call per parallel edge for a dictionary, three
      passes then one call per couple for any other iterable, and an error
      for anything else. Each failing pass reports the lowest-numbered check
      that any entry fails. */
  function ValidateEdges(x: Value): (r: Result<seq<EdgeCall>, ValidationError>)
    ensures r.Failure? ==> FamilyOf(r.error) == EdgesFamily && !r.error.DuplicationInEdgeIdentifiers?
    ensures x.Null? ==> r == Success([])
    ensures x.Dict? ==> (r.Success? <==> AdmissibleEdgeDict(x.entries))
    ensures x.Dict? && r.Success? ==>
      && (forall i | 0 <= i < |x.entries| :: Replayable(x.entries[i].0, x.entries[i].1))
      && r.value == DictCalls(x.entries)
    ensures x.Dict? && r.Failure? ==>
      exists i :: LowestFailure(x.entries, i) && r.error == EdgeCheckError(EdgeEntryRank(x.entries[i].0, x.entries[i].1))
    ensures IsSequence(x) ==> (r.Success? <==> forall i | 0 <= i < |Items(x)| :: IsCouple(Items(x)[i]))
    ensures IsSequence(x) && r.Success? ==> r.value == ListCalls(Items(x))
    ensures IsSequence(x) && r.Failure? ==>
      exists i :: LowestCoupleFailure(Items(x), i) && r.error == EdgeCheckError(CoupleRank(Items(x)[i]))
    ensures !(x.Null? || x.Dict? || IsSequence(x)) ==> r == Failure(WrongTypeOfEdges)
  {
    match x
    case Null => Success([])
    case Dict(es) =>
      EdgeDictReportsLowestCheck(es);
      var check := CheckEdgeDict(es);
      if check.Some? then Failure(check.value)
      else
        DictCallsCarryIdentifiers(es);
        Success(DictCalls(es))
    case _ => if IsSequence(x) then ValidateCoupleList(Items(x)) else Failure(WrongTypeOfEdges)
  }

  /** The three couple passes over an iterable that is not a dictionary:
      the error is that of the lowest-numbered check any couple fails,
      wherever that couple stands. */
  function ValidateCoupleList(cs: seq<Value>): (r: Result<seq<EdgeCall>, ValidationError>)
    ensures r.Failure? ==> r.error in {WrongTypeOfCouple, WrongLengthOfCouple, WrongTypeOfNodeIdentifierInCouple}
    ensures r.Failure? ==> exists i :: LowestCoupleFailure(cs, i) && r.error == EdgeCheckError(CoupleRank(cs[i]))
    ensures r.Success? <==> forall i | 0 <= i < |cs| :: IsCouple(cs[i])
    ensures r.Success? ==> r.value == ListCalls(cs)
  {
    CoupleListReportsLowestCheck(cs);
    match CheckCouples(cs)
    case Some(e) => Failure(e)
    case None => Success(ListCalls(cs))
  }

  /** The three couple passes raise the error of the lowest-numbered check
      any couple fails, and accept the list exactly when every item is a
      couple of identifiers. */
  lemma {:induction false} CoupleListReportsLowestCheck(cs: seq<Value>)
    ensures CheckCouples(cs).None? <==> forall i | 0 <= i < |cs| :: IsCouple(cs[i])
    ensures CheckCouples(cs).Some? ==>
      exists i :: LowestCoupleFailure(cs, i) && CheckCouples(cs).value == EdgeCheckError(CoupleRank(cs[i]))
  {
    if exists i | 0 <= i < |cs| :: !cs[i].Tuple? {
      var i :| 0 <= i < |cs| && !cs[i].Tuple?;
      assert LowestCoupleFailure(cs, i);
    } else if exists i | 0 <= i < |cs| :: |cs[i].items| != 2 {
      var i :| 0 <= i < |cs| && |cs[i].items| != 2;
      assert LowestCoupleFailure(cs, i);
    } else if exists i | 0 <= i < |cs| :: !cs[i].items[0].Ident? || !cs[i].items[1].Ident? {
      var i :| 0 <= i < |cs| && (!cs[i].items[0].Ident? || !cs[i].items[1].Ident?);
      assert LowestCoupleFailure(cs, i);
    }
  }

  /** After the checks pass, every call of the dictionary form carries its
      own identifier and sits inside the `try`: the branch for an entry
      without parallel edges is unreachable. */
  lemma {:induction false} DictCallsCarryIdentifiers(es: seq<(Value, Value)>)
    requires AdmissibleEdgeDict(es)
    ensures forall i | 0 <= i < |es| :: Replayable(es[i].0, es[i].1)
    ensures forall k | 0 <= k < |DictCalls(es)| :: DictCalls(es)[k].id.Some? && DictCalls(es)[k].wrapped
  {
    assert forall i | 0 <= i < |es| :: Replayable(es[i].0, es[i].1);
    if es != [] {
      DictCallsCarryIdentifiers(es[1..]);
      assert es[0].1.entries != [];
    }
  }

  /* ------------------------------------------------------- node validation */

  /** One `add_node` call made by a bulk load: with the attribute dictionary
      expanded into keyword arguments, or with `replace=True` and nothing
      else. */
  datatype NodeCall = Keyed(id: Id, entries: seq<(Value, Value)>) | Listed(id: Id)

  /** Reference reading of the node checks, one entry at a time. */
  function NodeEntryRank(k: Value, a: Value): (rank: nat)
    ensures rank <= 2
  {
    if !k.Ident? then 0 else if !a.Dict? then 1 else 2
  }

  /** `_nodes_validation` up to the calls it makes: nothing for no input,
      two passes (identifiers, then attribute dictionaries) for a dictionary,
      one pass for any other iterable, and an error for anything else. */
  function ValidateNodes(x: Value): (r: Result<seq<NodeCall>, ValidationError>)
    ensures r.Failure? ==> FamilyOf(r.error) == NodesFamily
    ensures x.Null? ==> r == Success([])
    ensures x.Dict? ==>
      && (r.Success? <==> forall i | 0 <= i < |x.entries| :: NodeEntryRank(x.entries[i].0, x.entries[i].1) == 2)
      && (r == Failure(WrongTypeOfNodeAttributes) ==> forall i | 0 <= i < |x.entries| :: x.entries[i].0.Ident?)
      && ((exists i | 0 <= i < |x.entries| :: !x.entries[i].0.Ident?) ==> r == Failure(WrongTypeOfNodeIdentifier))
      && (r.Failure? && (forall i | 0 <= i < |x.entries| :: x.entries[i].0.Ident?) ==> r.error == WrongTypeOfNodeAttributes)
      && (r.Success? ==>
            && |r.value| == |x.entries|
            && forall i | 0 <= i < |x.entries| :: r.value[i] == Keyed(x.entries[i].0.id, x.entries[i].1.entries))
    ensures IsSequence(x) ==>
      && (r.Success? <==> forall i | 0 <= i < |Items(x)| :: Items(x)[i].Ident?)
      && (r.Failure? ==> r.error == WrongTypeOfNodeIdentifier)
      && (r.Success? ==>
            && |r.value| == |Items(x)|
            && forall i | 0 <= i < |Items(x)| :: r.value[i] == Listed(Items(x)[i].id))
    ensures !(x.Null? || x.Dict? || IsSequence(x)) ==> r == Failure(WrongTypeOfNodes)
  {
    match x
    case Null => Success([])
    case Dict(es) =>
      if exists i | 0 <= i < |es| :: !es[i].0.Ident? then Failure(WrongTypeOfNodeIdentifier)
      else if exists i | 0 <= i < |es| :: !es[i].1.Dict? then Failure(WrongTypeOfNodeAttributes)
      else Success(seq(|es|, i requires 0 <= i < |es| => Keyed(es[i].0.id, es[i].1.entries)))
    case _ => if IsSequence(x) then ValidateIdentifierList(Items(x)) else Failure(WrongTypeOfNodes)
  }

  function ValidateIdentifierList(ns: seq<Value>): (r: Result<seq<NodeCall>, ValidationError>)
    ensures r.Failure? ==> r.error == WrongTypeOfNodeIdentifier
    ensures r.Success? <==> forall i | 0 <= i < |ns| :: ns[i].Ident?
    ensures r.Success? ==> |r.value| == |ns| && forall i | 0 <= i < |ns| :: r.value[i] == Listed(ns[i].id)
  {
    if exists i | 0 <= i < |ns| :: !ns[i].Ident? then Failure(WrongTypeOfNodeIdentifier)
    else Success(seq(|ns|, i requires 0 <= i < |ns| => Listed(ns[i].id)))
  }

  /* ------------------------------------------------------ keyword arguments */

  /** An attribute dictionary expanded with `**`: the key `replace` binds to
      the parameter of that name, whose default is `False`; every other key
      becomes an attribute. */
  datatype Kwargs = Kwargs(attrs: Attrs, replace: Value)

  const ReplaceKey := "replace"

  /** Names an expanded dictionary may not use: the arguments the loaders
      pass by name next to it, and `self`, which the bound method already
      fills. */
  const NodeArguments: set<string> := {"self", "identifier"}
  const EdgeArguments: set<string> :=
    {"self", "node_l", "node_r", "identifier", "add_non_existent_incident_nodes", "recalculate_calculated_attributes"}

  /** The key at index `i` does not occur again later. */
  predicate LastOccurrence(entries: seq<(Value, Value)>, i: int)
    requires 0 <= i < |entries|
  {
    forall j | i < j < |entries| :: entries[j].0 != entries[i].0
  }

  /** Expansion fails on a key that is not a string or that names an
      argument already passed; otherwise every other key becomes an
      attribute. */
  function Keywords(entries: seq<(Value, Value)>, passed: set<string>): (r: Result<Kwargs, Error>)
    ensures r.Failure? <==> exists i | 0 <= i < |entries| :: !entries[i].0.Ident? || entries[i].0.id in passed
    ensures r.Failure? ==> r.error == KeywordClash
    ensures r.Success? && (forall i | 0 <= i < |entries| :: entries[i].0 != Ident(ReplaceKey)) ==>
      r.value.replace == Flag(false)
    decreases |entries|
  {
    if entries == [] then Success(Kwargs(map[], Flag(false)))
    else
      var front := entries[..|entries| - 1];
      var (k, v) := entries[|entries| - 1];
      assert forall i | 0 <= i < |front| :: front[i] == entries[i];
      var kw :- Keywords(front, passed);
      if !k.Ident? || k.id in passed then Failure(KeywordClash)
      else if k.id == ReplaceKey then Success(kw.(replace := v))
      else Success(kw.(attrs := kw.attrs[k.id := v]))
  }

  /** The attributes are exactly the keys given, `replace` excepted. */
  lemma {:induction false} KeywordsAttrKeys(entries: seq<(Value, Value)>, passed: set<string>)
    requires Keywords(entries, passed).Success?
    ensures forall k :: k in Keywords(entries, passed).value.attrs <==>
      k != ReplaceKey && exists i | 0 <= i < |entries| :: entries[i].0 == Ident(k)
    decreases |entries|
  {
    if entries != [] {
      var front := entries[..|entries| - 1];
      var (k, v) := entries[|entries| - 1];
      assert forall i | 0 <= i < |front| :: front[i] == entries[i];
      KeywordsAttrKeys(front, passed);
      forall x ensures x in Keywords(entries, passed).value.attrs <==>
        x != ReplaceKey && exists i | 0 <= i < |entries| :: entries[i].0 == Ident(x)
      {
        if exists i | 0 <= i < |entries| :: entries[i].0 == Ident(x) {
          var i :| 0 <= i < |entries| && entries[i].0 == Ident(x);
          if i < |front| {
            assert front[i].0 == Ident(x);
          }
        }
      }
    }
  }

  /** Each key keeps the value of its last occurrence, as in a dictionary
      display with a repeated key. */
  lemma {:induction false} KeywordsLastValueWins(entries: seq<(Value, Value)>, passed: set<string>, i: int)
    requires Keywords(entries, passed).Success?
    requires 0 <= i < |entries| && entries[i].0 != Ident(ReplaceKey) && LastOccurrence(entries, i)
    ensures entries[i].0.Ident?
    ensures entries[i].0.id in Keywords(entries, passed).value.attrs
    ensures Keywords(entries, passed).value.attrs[entries[i].0.id] == entries[i].1
    decreases |entries|
  {
    var front := entries[..|entries| - 1];
    var (k, v) := entries[|entries| - 1];
    assert forall j | 0 <= j < |front| :: front[j] == entries[j];
    var kw := Keywords(front, passed);
    assert kw.Success?;
    assert k.Ident? && k.id !in passed;
    var r := Keywords(entries, passed);
    assert r.value == if k.id == ReplaceKey then kw.value.(replace := v)
                      else kw.value.(attrs := kw.value.attrs[k.id := v]);
    if i < |entries| - 1 {
      KeywordsLastValueWins(front, passed, i);
      assert k != entries[i].0;
    }
  }

  /* ---------------------------------------------------------------- loaders */

  /** `add_node` reached with a `replace` argument that may be any value.
      `replace is False` raises on an existing node and `replace is True`
      carries its calculated fields over; any other value overwrites the
      node with fresh attributes and no calculated fields. */
  function PlaceNode(g: Graph, id: Id, replace: Value, attrs: Attrs): (r: Result<Graph, Error>)
    ensures r.Failure? <==> id in g.nodes && replace == Flag(false)
    ensures r.Failure? ==> r.error == NodeAlreadyExists
    ensures r.Success? ==>
      && r.value.edges == g.edges
      && r.value.nodes.Keys == g.nodes.Keys + {id}
      && r.value.nodes[id].attrs == attrs
      && (if id in g.nodes && replace == Flag(true)
          then r.value.nodes[id].degree == g.nodes[id].degree && r.value.nodes[id].neighbors == g.nodes[id].neighbors
          else r.value.nodes[id].degree.None? && r.value.nodes[id].neighbors.None?)
      && forall n | n in g.nodes && n != id :: r.value.nodes[n] == g.nodes[n]
  {
    if id in g.nodes && replace != Flag(false) && replace != Flag(true) then
      Success(g.(nodes := g.nodes[id := NodeRec(attrs, None, None)]))
    else
      var (h, _) :- AddNode(g, Some(id), id, replace == Flag(true), attrs);
      Success(h)
  }

  function NodeCallIds(calls: seq<NodeCall>): set<Id> {
    set i | 0 <= i < |calls| :: calls[i].id
  }

  /** One `add_node` call of a bulk load. */
  function NodeStep(g: Graph, call: NodeCall): (r: Result<Graph, Error>)
    ensures call.Listed? ==> r.Success?
    ensures r.Failure? ==> r.error in {NodeAlreadyExists, KeywordClash}
    ensures r.Success? ==> r.value.edges == g.edges && r.value.nodes.Keys == g.nodes.Keys + {call.id}
  {
    match call
    case Listed(id) => PlaceNode(g, id, Flag(true), map[])
    case Keyed(id, entries) =>
      var kw :- Keywords(entries, NodeArguments);
      PlaceNode(g, id, kw.replace, kw.attrs)
  }

  /** The `add_node` calls of a bulk load, in order; the first error stops
      the load. */
  function ApplyNodeCalls(g: Graph, calls: seq<NodeCall>): (r: Result<Graph, Error>)
    ensures r.Failure? ==> r.error in {NodeAlreadyExists, KeywordClash}
    ensures r.Success? ==>
      && r.value.edges == g.edges
      && r.value.nodes.Keys == g.nodes.Keys + NodeCallIds(calls)
      && forall n | n in g.nodes && n !in NodeCallIds(calls) :: r.value.nodes[n] == g.nodes[n]
    decreases |calls|
  {
    if calls == [] then Success(g)
    else
      var h :- NodeStep(g, calls[0]);
      assert NodeCallIds(calls) == {calls[0].id} + NodeCallIds(calls[1..]) by {
        assert forall i | 0 <= i < |calls| - 1 :: calls[1..][i] == calls[i + 1];
      }
      ApplyNodeCalls(h, calls[1..])
  }

  /** One `add_edge` call of a bulk load, with missing endpoints added and
      nothing recomputed. The identifier is the call's own or `generated`.
      Only `replace is False` raises on an existing edge; a wrapped call
      reports it with the couple as written in the input. */
  function LoadEdge(v: Variant, g: Graph, call: EdgeCall, generated: Id): (r: Result<Graph, Error>)
    ensures r.Failure? ==>
      || r.error == KeywordClash
      || (!call.wrapped && r.error == EdgeAlreadyExists)
      || (call.wrapped && r.error == Invalid(DuplicationInEdgeIdentifiers(call.l, call.r)))
    ensures r.Success? ==>
      && r.value.nodes.Keys == g.nodes.Keys + {call.l, call.r}
      && (forall n | n in g.nodes :: r.value.nodes[n] == g.nodes[n])
      && (forall n | n in r.value.nodes && n !in g.nodes :: r.value.nodes[n] == BareNode)
      && r.value.edges.Keys == g.edges.Keys + {v.canon((call.l, call.r))}
  {
    var kw :- Keywords(call.attrs, EdgeArguments);
    var id := call.id.GetOr(generated);
    if EdgeExists(g, v.canon((call.l, call.r)), id) && kw.replace == Flag(false) then
      Failure(if call.wrapped then Invalid(DuplicationInEdgeIdentifiers(call.l, call.r)) else EdgeAlreadyExists)
    else
      Success(Insert(v, g, call.l, call.r, id, kw.attrs, true))
  }

  function CallEnds(calls: seq<EdgeCall>): set<Id> {
    (set i | 0 <= i < |calls| :: calls[i].l) + (set i | 0 <= i < |calls| :: calls[i].r)
  }

  function CallCouples(v: Variant, calls: seq<EdgeCall>): set<Couple> {
    set i | 0 <= i < |calls| :: v.canon((calls[i].l, calls[i].r))
  }

  /** Calls replayed in order through `step`, stopping at the first
      failure; call `k` of the whole load gets `gen(k)` when it needs a
      generated identifier. */
  function Replay(step: (Graph, EdgeCall, Id) -> Result<Graph, Error>, g: Graph, calls: seq<EdgeCall>, gen: nat -> Id, k: nat)
    : Result<Graph, Error>
    decreases |calls|
  {
    if calls == [] then Success(g)
    else
      var h :- step(g, calls[0], gen(k));
      Replay(step, h, calls[1..], gen, k + 1)
  }

  /** One load call as a replay step. */
  function LoadStep(v: Variant): (Graph, EdgeCall, Id) -> Result<Graph, Error> {
    (g, call, generated) => LoadEdge(v, g, call, generated)
  }

  /** The `add_edge` calls of a bulk load, in order. */
  function ApplyEdgeCalls(v: Variant, g: Graph, calls: seq<EdgeCall>, gen: nat -> Id, k: nat)
    : (r: Result<Graph, Error>)
    ensures r.Success? ==>
      && r.value.nodes.Keys == g.nodes.Keys + CallEnds(calls)
      && (forall n | n in g.nodes :: r.value.nodes[n] == g.nodes[n])
      && (forall n | n in r.value.nodes && n !in g.nodes :: r.value.nodes[n] == BareNode)
      && r.value.edges.Keys == g.edges.Keys + CallCouples(v, calls)
  {
    ReplayNodes(v, g, calls, gen, k);
    ReplayEdges(v, g, calls, gen, k);
    Replay(LoadStep(v), g, calls, gen, k)
  }

  /** A replay adds the calls' endpoints, keeps the existing node records
      and gives every new node an empty record. */
  lemma {:induction false} ReplayNodes(v: Variant, g: Graph, calls: seq<EdgeCall>, gen: nat -> Id, k: nat)
    ensures var r := Replay(LoadStep(v), g, calls, gen, k);
      r.Success? ==>
      && r.value.nodes.Keys == g.nodes.Keys + CallEnds(calls)
      && (forall n | n in g.nodes :: r.value.nodes[n] == g.nodes[n])
      && (forall n | n in r.value.nodes && n !in g.nodes :: r.value.nodes[n] == BareNode)
    decreases |calls|
  {
    if calls != [] {
      var r := LoadEdge(v, g, calls[0], gen(k));
      assert LoadStep(v)(g, calls[0], gen(k)) == r;
      if r.Success? {
        var h := r.value;
        var t := Replay(LoadStep(v), h, calls[1..], gen, k + 1);
        assert Replay(LoadStep(v), g, calls, gen, k) == t;
        ReplayNodes(v, h, calls[1..], gen, k + 1);
        CallsSplit(v, calls);
        if t.Success? {
          NodesCompose(g.nodes, h.nodes, t.value.nodes, {calls[0].l, calls[0].r}, CallEnds(calls[1..]));
        }
      }
    }
  }

  /** Node stores that grow only by new empty records, twice in a row. */
  lemma {:induction false} NodesCompose(g: Nodes, h: Nodes, u: Nodes, a: set<Id>, b: set<Id>)
    requires h.Keys == g.Keys + a
    requires forall n | n in g :: h[n] == g[n]
    requires forall n | n in h && n !in g :: h[n] == BareNode
    requires u.Keys == h.Keys + b
    requires forall n | n in h :: u[n] == h[n]
    requires forall n | n in u && n !in h :: u[n] == BareNode
    ensures u.Keys == g.Keys + (a + b)
    ensures forall n | n in g :: u[n] == g[n]
    ensures forall n | n in u && n !in g :: u[n] == BareNode
  {
  }

  /** A replay adds the canonical couple of every call. */
  lemma {:induction false} ReplayEdges(v: Variant, g: Graph, calls: seq<EdgeCall>, gen: nat -> Id, k: nat)
    ensures var r := Replay(LoadStep(v), g, calls, gen, k);
      r.Success? ==> r.value.edges.Keys == g.edges.Keys + CallCouples(v, calls)
    decreases |calls|
  {
    if calls != [] {
      var r := LoadEdge(v, g, calls[0], gen(k));
      assert LoadStep(v)(g, calls[0], gen(k)) == r;
      if r.Success? {
        assert Replay(LoadStep(v), g, calls, gen, k) == Replay(LoadStep(v), r.value, calls[1..], gen, k + 1);
        ReplayEdges(v, r.value, calls[1..], gen, k + 1);
        CallsSplit(v, calls);
      }
    }
  }

  lemma {:induction false} CallsSplit(v: Variant, calls: seq<EdgeCall>)
    requires calls != []
    ensures CallEnds(calls) == {calls[0].l, calls[0].r} + CallEnds(calls[1..])
    ensures CallCouples(v, calls) == {v.canon((calls[0].l, calls[0].r))} + CallCouples(v, calls[1..])
  {
    assert forall i | 0 <= i < |calls| - 1 :: calls[1..][i] == calls[i + 1];
    assert forall i | 1 <= i < |calls| :: calls[i] == calls[1..][i - 1];
  }

  /** Every couple a load writes has both endpoints among the nodes the load
      guarantees, for a canonicalisation that only reorders endpoints. */
  lemma {:induction false} ApplyEdgeCallsKeepsClosed(v: Variant, g: Graph, calls: seq<EdgeCall>, gen: nat -> Id, k: nat)
    requires ValidCanon(v.canon)
    requires Closed(g)
    ensures ApplyEdgeCalls(v, g, calls, gen, k).Success? ==> Closed(ApplyEdgeCalls(v, g, calls, gen, k).value)
  {
    if ApplyEdgeCalls(v, g, calls, gen, k).Success? {
      CallsKeepClosed(v, g, ApplyEdgeCalls(v, g, calls, gen, k).value, calls);
    }
  }

  lemma {:induction false} CallsKeepClosed(v: Variant, g: Graph, h: Graph, calls: seq<EdgeCall>)
    requires ValidCanon(v.canon)
    requires Closed(g)
    requires h.nodes.Keys == g.nodes.Keys + CallEnds(calls)
    requires h.edges.Keys == g.edges.Keys + CallCouples(v, calls)
    ensures Closed(h)
  {
    forall c | c in h.edges ensures c.0 in h.nodes && c.1 in h.nodes {
      if c !in g.edges {
        var i :| 0 <= i < |calls| && c == v.canon((calls[i].l, calls[i].r));
        assert c == (calls[i].l, calls[i].r) || c == (calls[i].r, calls[i].l);
        assert calls[i].l in CallEnds(calls) && calls[i].r in CallEnds(calls);
      }
    }
  }

  /** A failed load reports a keyword clash, a raw duplicate, or a wrapped
      duplicate naming the couple of a wrapped call. */
  lemma {:induction false} ApplyEdgeCallsErrors(v: Variant, g: Graph, calls: seq<EdgeCall>, gen: nat -> Id, k: nat)
    requires ApplyEdgeCalls(v, g, calls, gen, k).Failure?
    ensures var e := ApplyEdgeCalls(v, g, calls, gen, k).error;
      || e == KeywordClash
      || (e == EdgeAlreadyExists && exists i | 0 <= i < |calls| :: !calls[i].wrapped)
      || exists i | 0 <= i < |calls| :: calls[i].wrapped && e == Invalid(DuplicationInEdgeIdentifiers(calls[i].l, calls[i].r))
    decreases |calls|
  {
    var r := LoadEdge(v, g, calls[0], gen(k));
    assert LoadStep(v)(g, calls[0], gen(k)) == r;
    if r.Success? {
      ApplyEdgeCallsErrors(v, r.value, calls[1..], gen, k + 1);
      var e := ApplyEdgeCalls(v, g, calls, gen, k).error;
      assert e == ApplyEdgeCalls(v, r.value, calls[1..], gen, k + 1).error;
      assert forall i | 0 <= i < |calls| - 1 :: calls[1..][i] == calls[i + 1];
    }
  }

  /* --------------------------------------------------------------- setters */

  /** The `nodes` setter: the node store is emptied first, then the input is
      checked and replayed. The edge store is not touched, so edges may be
      left dangling, and nothing is recomputed. */
  function SetNodes(g: Graph, x: Value): (r: Result<Graph, Error>)
    ensures r.Failure? && r.error.Invalid? ==> ValidateNodes(x).Failure? && r.error.reason == ValidateNodes(x).error
    ensures ValidateNodes(x).Failure? ==> r == Failure(Invalid(ValidateNodes(x).error))
    ensures r.Success? ==>
      && ValidateNodes(x).Success?
      && r.value.edges == g.edges
      && r.value.nodes.Keys == NodeCallIds(ValidateNodes(x).value)
  {
    match ValidateNodes(x)
    case Failure(e) => Failure(Invalid(e))
    case Success(calls) => ApplyNodeCalls(g.(nodes := map[]), calls)
  }

  /** The `edges` setter: the edge store is emptied first, then the input is
      checked and replayed with missing endpoints added and nothing
      recomputed. */
  function SetEdges(v: Variant, g: Graph, x: Value, gen: nat -> Id): (r: Result<Graph, Error>)
    ensures r.Failure? && r.error.Invalid? && !r.error.reason.DuplicationInEdgeIdentifiers? ==>
      ValidateEdges(x).Failure? && r.error.reason == ValidateEdges(x).error
    ensures ValidateEdges(x).Failure? ==> r == Failure(Invalid(ValidateEdges(x).error))
    ensures r.Success? ==>
      && ValidateEdges(x).Success?
      && r.value.nodes.Keys == g.nodes.Keys + CallEnds(ValidateEdges(x).value)
      && (forall n | n in g.nodes :: r.value.nodes[n] == g.nodes[n])
      && r.value.edges.Keys == CallCouples(v, ValidateEdges(x).value)
  {
    match ValidateEdges(x)
    case Failure(e) => Failure(Invalid(e))
    case Success(calls) =>
      var r := ApplyEdgeCalls(v, g.(edges := map[]), calls, gen, 0);
      if r.Failure? then ApplyEdgeCallsErrors(v, g.(edges := map[]), calls, gen, 0); r else r
  }

  /** The constructor: the `nodes` setter, the `edges` setter, then
      `calc_degree` and `calc_neighbors`. */
  ghost function Construct(v: Variant, nodes: Value, edges: Value, gen: nat -> Id): (r: Result<Graph, Error>)
    requires ValidCanon(v.canon)
    ensures r.Success? ==> Closed(r.value) && Recomputed(v, r.value)
    ensures r.Success? ==> Canonical(v, r.value)
  {
    var a :- SetNodes(EmptyGraph, nodes);
    var b :- SetEdges(v, a, edges, gen);
    assert Closed(a.(edges := map[]));
    var calls := ValidateEdges(edges).value;
    ApplyEdgeCallsKeepsClosed(v, a.(edges := map[]), calls, gen, 0);
    assert Canonical(v, b) by {
      forall c | c in b.edges ensures v.canon(c) == c {
        var i :| 0 <= i < |calls| && c == v.canon((calls[i].l, calls[i].r));
      }
    }
    Success(Recompute(v, b))
  }
}
