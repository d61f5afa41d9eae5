/** The node-to-BioPax resolution engine: element lookup in the BioPax tree, resolution of a
    diagram node through the three candidate ids, and annotation of every node of the graph. */
module MetadataMapper {
  import opened Wrappers
  import opened Strings
  import opened JsonTree
  import opened Identifiers
  import opened Fields

  /** The source's `getElementFromBioPax`: the id is normalised to a full URI and the tree is
      queried at every depth for objects whose `pathid` is that URI; `None` is the source's
      `null`. */
  function GetElementFromBioPax(id: string, biopax: Json): (r: Option<seq<Json>>)
    ensures r.Some? ==> |r.value| > 0 && forall x :: x in r.value ==> IsMatch(x, Normalize(id))
  {
    var found := Search(biopax, Normalize(id));
    // `result[0]` is a matched object, and objects are truthy.
    if |found| > 0 then Some(found) else None
  }

  /** The lookup comes back empty exactly when no object at any depth below the root has the
      normalised id as its `pathid`; otherwise it holds every such object and nothing else. */
  lemma GetElementFromBioPaxCharacterised(id: string, biopax: Json)
    ensures GetElementFromBioPax(id, biopax).None? <==> forall path :: !MatchAt(biopax, path, Normalize(id))
    ensures GetElementFromBioPax(id, biopax).Some? ==> forall x ::
      x in GetElementFromBioPax(id, biopax).value <==>
      exists path :: MatchAt(biopax, path, Normalize(id)) && At(biopax, path) == Some(x)
  {
    SearchCharacterisation(biopax, Normalize(id));
  }

  /** The index of the first candidate that `matches` accepts, trying the candidates in order. */
  function FirstMatching(candidates: seq<string>, matches: string -> bool): (r: Option<nat>)
    ensures r.Some? ==> r.value < |candidates| && matches(candidates[r.value])
    ensures r.Some? ==> forall k :: 0 <= k < r.value ==> !matches(candidates[k])
    ensures r.None? ==> forall k :: 0 <= k < |candidates| ==> !matches(candidates[k])
  {
    if |candidates| == 0 then None
    else if matches(candidates[0]) then Some(0)
    else
      match FirstMatching(candidates[1..], matches)
      case None => None
      case Some(k) => Some(k + 1)
  }

  /** Some element of the graph has the normalised `c` as its `pathid`. */
  predicate Matches(c: string, biopax: Json) {
    GetElementFromBioPax(c, biopax).Some?
  }

  /** The candidate ids of a node that match an element of the graph. */
  function MatchesIn(biopax: Json): string -> bool {
    c => Matches(c, biopax)
  }

  /** The source's `getBioPaxSubtree`: the field list built for the first candidate (direct, then
      unification cross-reference, then external identifier) that matches an element, and `None`
      when no candidate matches. Later candidates are not consulted once one matches. */
  function GetBioPaxSubtree(nodeId: string, biopax: Json, fetch: Fetch): (r: Option<seq<Field>>)
    ensures r.None? <==>
      !Matches(DirectCandidate(nodeId), biopax) && !Matches(UnificationCandidate(nodeId), biopax) &&
      !Matches(ExternalCandidate(nodeId), biopax)
    ensures r.Some? ==>
      || (Matches(DirectCandidate(nodeId), biopax) && r.value == BuildBioPaxTree(DirectCandidate(nodeId), fetch))
      || (Matches(UnificationCandidate(nodeId), biopax) && r.value == BuildBioPaxTree(UnificationCandidate(nodeId), fetch))
      || (Matches(ExternalCandidate(nodeId), biopax) && r.value == BuildBioPaxTree(ExternalCandidate(nodeId), fetch))
  {
    var direct := DirectCandidate(nodeId);
    if GetElementFromBioPax(direct, biopax).Some? then
      Some(BuildBioPaxTree(direct, fetch))
    else
      var unification := UnificationCandidate(nodeId);
      if GetElementFromBioPax(unification, biopax).Some? then
        Some(BuildBioPaxTree(unification, fetch))
      else
        var external := ExternalCandidate(nodeId);
        if GetElementFromBioPax(external, biopax).Some? then
          Some(BuildBioPaxTree(external, fetch))
        else
          None
  }

  /** Resolution order: the result is the field list of the first candidate in the order direct,
      unification cross-reference, external identifier that matches an element of the graph, and
      `None` when none of them matches. */
  lemma GetBioPaxSubtreeResolvesInOrder(nodeId: string, biopax: Json, fetch: Fetch)
    ensures var r := GetBioPaxSubtree(nodeId, biopax, fetch);
      match FirstMatching(Candidates(nodeId), MatchesIn(biopax))
      case None => r.None?
      case Some(k) => r == Some(BuildBioPaxTree(Candidates(nodeId)[k], fetch))
  {
    var cands := Candidates(nodeId);
    var matches := MatchesIn(biopax);
    FirstMatchingOfThree(cands, matches);
    assert matches(cands[0]) == GetElementFromBioPax(DirectCandidate(nodeId), biopax).Some?;
    assert matches(cands[1]) == GetElementFromBioPax(UnificationCandidate(nodeId), biopax).Some?;
    assert matches(cands[2]) == GetElementFromBioPax(ExternalCandidate(nodeId), biopax).Some?;
  }

  /** Trying three candidates in order. */
  lemma FirstMatchingOfThree(candidates: seq<string>, matches: string -> bool)
    requires |candidates| == 3
    ensures FirstMatching(candidates, matches) ==
      if matches(candidates[0]) then Some(0)
      else if matches(candidates[1]) then Some(1)
      else if matches(candidates[2]) then Some(2)
      else None
  {
    assert candidates[1..][0] == candidates[1];
    assert candidates[1..][1..] == [candidates[2]];
    assert [candidates[2]][1..] == [];
  }

  /** A node is left unresolved exactly when none of its three candidate ids matches an element
      of the graph at any depth. */
  lemma GetBioPaxSubtreeUnresolved(nodeId: string, biopax: Json, fetch: Fetch)
    ensures GetBioPaxSubtree(nodeId, biopax, fetch).None? <==>
      forall k, path :: 0 <= k < |Candidates(nodeId)| ==> !MatchAt(biopax, path, Normalize(Candidates(nodeId)[k]))
  {
    var cands := Candidates(nodeId);
    AllCandidatesMiss(nodeId, biopax, fetch);
    forall k | 0 <= k < |cands|
      ensures GetElementFromBioPax(cands[k], biopax).None? <==> forall path :: !MatchAt(biopax, path, Normalize(cands[k]))
    {
      GetElementFromBioPaxCharacterised(cands[k], biopax);
    }
  }

  /** A node is left unresolved exactly when every one of its candidate lookups comes back
      `null`. */
  lemma AllCandidatesMiss(nodeId: string, biopax: Json, fetch: Fetch)
    ensures GetBioPaxSubtree(nodeId, biopax, fetch).None? <==>
      forall k :: 0 <= k < |Candidates(nodeId)| ==> GetElementFromBioPax(Candidates(nodeId)[k], biopax).None?
  {
    var cands := Candidates(nodeId);
    var first := FirstMatching(cands, MatchesIn(biopax));
    GetBioPaxSubtreeResolvesInOrder(nodeId, biopax, fetch);
    if first.Some? {
      assert MatchesIn(biopax)(cands[first.value]);
    }
  }

  /** A document whose graph holds one record, identified by `uri`. */
  function SingleRecordGraph(uri: string): Json {
    JArray([JObject([Member("pathid", JString(uri))])])
  }

  /** In a one-record graph the lookup succeeds exactly for ids that normalise to the record's
      URI. */
  lemma SingleRecordLookup(uri: string, id: string)
    ensures GetElementFromBioPax(id, SingleRecordGraph(uri)).Some? <==> Normalize(id) == uri
  {
    var graph := SingleRecordGraph(uri);
    var record := JObject([Member("pathid", JString(uri))]);
    var u := Normalize(id);
    assert Children(graph) == [record];
    assert Children(record) == [JString(uri)];
    if u == uri {
      assert IsMatch(record, u);
      assert Hits([record], u) == [record];
    } else {
      assert !IsMatch(record, u);
      assert !IsMatch(JString(uri), u);
      assert Hits([record], u) == [] by {
        assert [record][1..] == [];
      }
      assert Hits([JString(uri)], u) == [] by {
        assert [JString(uri)][1..] == [];
      }
      assert Search(JString(uri), u) == [] by {
        assert Children(JString(uri)) == [];
      }
      assert Search(record, u) == [] by {
        assert [Member("pathid", JString(uri))][1..] == [];
        assert SearchMembers([Member("pathid", JString(uri))], u) == [];
      }
      assert Search(graph, u) == [] by {
        assert [record][1..] == [];
        assert SearchItems([record], u) == [];
      }
    }
  }

  /** Base URIs differ at index 7, so no id under one base equals an id under the other. */
  lemma BasesDiffer(x: string, y: string)
    ensures Pc2Base + x != IdentifiersBase + y
  {
    assert (Pc2Base + x)[7] == 'p';
    assert (IdentifiersBase + y)[7] == 'i';
  }

  /** A node id with two suffix segments, such as `Protein_1_2`, resolves through the direct
      form to the local record `Protein_1`. */
  lemma SuffixedNodeResolvesDirectly(a: string, b: string, c: string, fetch: Fetch)
    requires '_' !in a && '_' !in b && '_' !in c
    requires !Contains(a + "_" + b, "http")
    ensures GetBioPaxSubtree(a + "_" + b + "_" + c, SingleRecordGraph(Pc2Base + (a + "_" + b)), fetch)
      == Some(BuildBioPaxTree(a + "_" + b, fetch))
  {
    SuffixedIdCandidates(a, b, c);
    SingleRecordLookup(Pc2Base + (a + "_" + b), a + "_" + b);
  }

  /** A node id with one underscore, such as `uniprot_P12345`, whose graph holds only the
      identifiers.org record `http://identifiers.org/uniprot/P12345`, resolves through the
      external identifier form after the direct and unification forms miss. */
  lemma RegistryNodeResolvesExternally(a: string, b: string, fetch: Fetch)
    requires '_' !in a && '_' !in b
    requires !Contains(a + "_" + b, "http")
    ensures GetBioPaxSubtree(a + "_" + b, SingleRecordGraph(IdentifiersBase + (a + "/" + b)), fetch)
      == Some(BuildBioPaxTree(IdentifiersBase + (a + "/" + b), fetch))
  {
    var nodeId := a + "_" + b;
    var uri := IdentifiersBase + (a + "/" + b);
    SingleSuffixCandidates(a, b);
    assert nodeId != uri by {
      ContainsPrefix(IdentifiersBase, "http", a + "/" + b);
    }
    LocalIsNotRegistry(nodeId, a + "/" + b);
    SingleRecordLookup(uri, nodeId);
    UnificationIsNotRegistry(nodeId, a + "/" + b);
    SingleRecordLookup(uri, UnificationCandidate(nodeId));
    assert Normalize(uri) == uri by {
      ContainsPrefix(IdentifiersBase, "http", a + "/" + b);
    }
    SingleRecordLookup(uri, uri);
  }

  /** A node id without an underscore, such as `9606`, is not found even when the graph holds the
      identifiers.org record `http://identifiers.org/9606`: its external form is
      `http://identifiers.org/9606/undefined`. */
  lemma PlainNodeMissesRegistryRecord(a: string, fetch: Fetch)
    requires '_' !in a
    ensures GetBioPaxSubtree(a, SingleRecordGraph(IdentifiersBase + a), fetch).None?
  {
    var uri := IdentifiersBase + a;
    assert DirectCandidate(a) == a by {
      assert multiset(a)['_'] == 0;
    }
    assert |a| < |uri|;
    LocalIsNotRegistry(a, a);
    SingleRecordLookup(uri, a);
    UnificationIsNotRegistry(a, a);
    SingleRecordLookup(uri, UnificationCandidate(a));
    PlainExternalIsNotRecord(a);
    SingleRecordLookup(uri, ExternalCandidate(a));
  }

  /** An id other than an identifiers.org URI does not normalise to one: it either stays as it is
      or moves under the PC2 base. */
  lemma LocalIsNotRegistry(c: string, y: string)
    requires c != IdentifiersBase + y
    ensures Normalize(c) != IdentifiersBase + y
  {
    if !Contains(c, "http") {
      BasesDiffer(c, y);
    }
  }

  /** The unification form starts with `U`, so it never normalises to an identifiers.org URI. */
  lemma UnificationIsNotRegistry(nodeId: string, y: string)
    ensures Normalize(UnificationCandidate(nodeId)) != IdentifiersBase + y
  {
    var c := UnificationCandidate(nodeId);
    assert c[0] == 'U';
    assert (IdentifiersBase + y)[0] == 'h';
    LocalIsNotRegistry(c, y);
  }

  /** The external form of an id without underscores is a full URI longer than the
      identifiers.org URI of the id itself. */
  lemma PlainExternalIsNotRecord(a: string)
    requires '_' !in a
    ensures Normalize(ExternalCandidate(a)) != IdentifiersBase + a
  {
    var tail := a + "/" + Undefined;
    var c := ExternalCandidate(a);
    assert c == IdentifiersBase + tail by {
      ExternalOfPlain(a);
    }
    assert Normalize(c) == c by {
      ContainsPrefix(IdentifiersBase, "http", tail);
    }
    assert |c| == |IdentifiersBase| + |a| + 10;
  }

  /** `Protein_1_2` resolves to the local record `Protein_1`. */
  lemma ProteinExample(fetch: Fetch)
    ensures GetBioPaxSubtree("Protein_1_2", SingleRecordGraph(Pc2Base + "Protein_1"), fetch)
      == Some(BuildBioPaxTree("Protein_1", fetch))
  {
    assert "Protein" + "_" + "1" == "Protein_1";
    assert "Protein" + "_" + "1" + "_" + "2" == "Protein_1_2";
    NoAdjacentPair("Protein_1", "http");
    SuffixedNodeResolvesDirectly("Protein", "1", "2", fetch);
  }

  /** `Phosphate_1_2`, whose name holds the letter `h`, resolves to the local record
      `Phosphate_1`. */
  lemma PhosphateExample(fetch: Fetch)
    ensures GetBioPaxSubtree("Phosphate_1_2", SingleRecordGraph(Pc2Base + "Phosphate_1"), fetch)
      == Some(BuildBioPaxTree("Phosphate_1", fetch))
  {
    assert "Phosphate" + "_" + "1" == "Phosphate_1";
    assert "Phosphate" + "_" + "1" + "_" + "2" == "Phosphate_1_2";
    NoAdjacentPair("Phosphate_1", "http");
    SuffixedNodeResolvesDirectly("Phosphate", "1", "2", fetch);
  }

  /** `9606` is not found in a graph holding only `http://identifiers.org/9606`. */
  lemma TaxonExample(fetch: Fetch)
    ensures GetBioPaxSubtree("9606", SingleRecordGraph(IdentifiersBase + "9606"), fetch).None?
  {
    PlainNodeMissesRegistryRecord("9606", fetch);
  }

  /** The source's `replaceAll(data, "@id", 'pathid')`, applied to the document text before it is
      parsed: every occurrence of `@id` in the text, the JSON-LD keys and any inside string values
      alike, becomes `pathid`, a name the query language accepts. The rename touches the `@id`
      occurrences and nothing else: the pieces of the text around them, joined
      with `pathid`, give the renamed text, and joined with `@id` give back the original. */
  function RenameIdKeys(data: string): (r: string)
    ensures r == Join(Split(data, "@id"), "pathid")
    ensures Join(Split(data, "@id"), "@id") == data
  {
    SplitJoinRoundTrip(data, "@id");
    ReplaceAll(data, "@id", "pathid")
  }

  /** Renamed text starts with `id` only if the original text did. */
  lemma {:induction false} RenamedStartsWithIdOnlyIf(t: string)
    requires !(|t| >= 2 && t[0] == 'i' && t[1] == 'd')
    ensures !(|RenameIdKeys(t)| >= 2 && RenameIdKeys(t)[0] == 'i' && RenameIdKeys(t)[1] == 'd')
  {
    if t != [] && !("@id" <= t) {
      var u := t[1..];
      assert RenameIdKeys(t) == [t[0]] + RenameIdKeys(u);
      if t[0] == 'i' && u != [] && !("@id" <= u) {
        assert RenameIdKeys(u) == [u[0]] + RenameIdKeys(u[1..]);
        assert RenameIdKeys(t)[1] == u[0];
      }
    }
  }

  /** No `@id` is left in the renamed text. */
  lemma {:induction false} RenameIdKeysRemovesAll(data: string)
    ensures !Contains(RenameIdKeys(data), "@id")
    ensures forall i :: !OccursAt(RenameIdKeys(data), "@id", i)
    decreases |data|
  {
    var r := RenameIdKeys(data);
    if data == [] {
    } else if "@id" <= data {
      var rest := data[3..];
      RenameIdKeysRemovesAll(rest);
      assert r == "pathid" + RenameIdKeys(rest);
      forall i ensures !OccursAt(r, "@id", i) {
        if 0 <= i < 6 {
          OccursAtStartsWithHead(r, "@id", i);
        } else if i >= 6 {
          OccursAfterPrefix("pathid", RenameIdKeys(rest), "@id", i);
        }
      }
    } else {
      var rest := data[1..];
      RenameIdKeysRemovesAll(rest);
      assert r == [data[0]] + RenameIdKeys(rest);
      forall i ensures !OccursAt(r, "@id", i) {
        if i == 0 {
          if data[0] == '@' {
            assert !(|rest| >= 2 && rest[0] == 'i' && rest[1] == 'd');
            RenamedStartsWithIdOnlyIf(rest);
            if |r| >= 3 {
              assert r[0..3][1] == r[1] && r[0..3][2] == r[2];
            }
          } else {
            OccursAtStartsWithHead(r, "@id", 0);
          }
        } else if i >= 1 {
          OccursAfterPrefix([data[0]], RenameIdKeys(rest), "@id", i);
        }
      }
    }
  }

  /** What the annotation attaches to a node: nothing yet, the source's `null` for a node that
      no graph element matches, or the field list built for it. */
  datatype Metadata = Unset | Unresolved | Resolved(fields: seq<Field>)

  /** A diagram node: its id, its other attributes (carried through untouched) and the metadata
      attached to it. */
  datatype Node = Node(id: string, attributes: seq<Member>, metadata: Metadata)

  /** Why annotation stops with an exception: the text is not JSON, the document is JSON `null`
      (reading `@graph` from it throws), or the graph is not something the query language
      accepts (it demands an object or an array). */
  datatype Failure = MalformedDocument | NullDocument | GraphNotQueryable

  /** A JSON parser: `None` where `JSON.parse` throws. */
  type Parser = string -> Option<Json>

  /** Renames the `@id` keys, parses the text and reads its `@graph` member; `None` stands for
      `undefined`, which is what reading a member from a non-object or a missing member gives. */
  function LoadGraph(data: string, parse: Parser): (r: Result<Option<Json>, Failure>)
    ensures r == Err(MalformedDocument) <==> parse(RenameIdKeys(data)).None?
    ensures r == Err(NullDocument) <==> parse(RenameIdKeys(data)) == Some(JNull)
    ensures r.Ok? && r.value.Some? ==>
      parse(RenameIdKeys(data)).Some? && parse(RenameIdKeys(data)).value.JObject? &&
      Member("@graph", r.value.value) in parse(RenameIdKeys(data)).value.members
    ensures r == Ok(None) <==>
      parse(RenameIdKeys(data)).Some? && parse(RenameIdKeys(data)).value != JNull &&
      (parse(RenameIdKeys(data)).value.JObject? ==>
        forall m :: m in parse(RenameIdKeys(data)).value.members ==> m.key != "@graph")
  {
    match parse(RenameIdKeys(data))
    case None => Err(MalformedDocument)
    case Some(JNull) => Err(NullDocument)
    case Some(JObject(members)) => Ok(Get(members, "@graph"))
    case Some(_) => Ok(None)
  }

  /** A graph the query language accepts. */
  predicate Queryable(graph: Option<Json>) {
    graph.Some? && (graph.value.JArray? || graph.value.JObject?)
  }

  /** The metadata attached for a resolution outcome. */
  function MetadataOf(subtree: Option<seq<Field>>): Metadata {
    match subtree
    case None => Unresolved
    case Some(fields) => Resolved(fields)
  }

  /** One iteration of the source's annotation loop: the node with the metadata its id resolves
      to in `graph`. */
  function Annotate(node: Node, graph: Json, fetch: Fetch): (r: Node)
    ensures r.id == node.id && r.attributes == node.attributes && r.metadata != Unset
  {
    node.(metadata := MetadataOf(GetBioPaxSubtree(node.id, graph, fetch)))
  }

  /** An annotated node is left unresolved exactly when none of its candidate ids matches an
      element of the graph; otherwise it carries the field list of the first candidate that
      does. */
  lemma AnnotateResolution(node: Node, graph: Json, fetch: Fetch)
    ensures Annotate(node, graph, fetch).metadata == Unresolved <==>
      forall c, path :: 0 <= c < |Candidates(node.id)| ==> !MatchAt(graph, path, Normalize(Candidates(node.id)[c]))
    ensures match FirstMatching(Candidates(node.id), MatchesIn(graph))
      case None => Annotate(node, graph, fetch).metadata == Unresolved
      case Some(k) => Annotate(node, graph, fetch).metadata == Resolved(BuildBioPaxTree(Candidates(node.id)[k], fetch))
  {
    GetBioPaxSubtreeUnresolved(node.id, graph, fetch);
    GetBioPaxSubtreeResolvesInOrder(node.id, graph, fetch);
  }

  /** Annotation depends only on the node's id, the graph and the traverse query, so annotating
      a node a second time changes nothing. */
  lemma AnnotateIdempotent(node: Node, graph: Json, fetch: Fetch)
    ensures Annotate(Annotate(node, graph, fetch), graph, fetch) == Annotate(node, graph, fetch)
  {
  }

  /** The source's `processBioPax`: every node, in order, gets the metadata its id resolves to in
      the document's graph. The outcome is an error when the text does not parse, when it is
      JSON `null`, or when some node has to be looked up in a graph that is not an object or an
      array; otherwise the nodes come back in the same order with the same ids and attributes,
      each annotated. */
  method ProcessBioPax(data: string, nodes: seq<Node>, parse: Parser, fetch: Fetch)
    returns (r: Result<seq<Node>, Failure>)
    ensures r.Err? <==> LoadGraph(data, parse).Err? || (|nodes| > 0 && !Queryable(LoadGraph(data, parse).value))
    ensures r.Err? && LoadGraph(data, parse).Ok? ==> r.error == GraphNotQueryable
    ensures r.Err? && LoadGraph(data, parse).Err? ==> r.error == LoadGraph(data, parse).error
    ensures r.Ok? ==> |r.value| == |nodes|
    ensures r.Ok? ==> forall k :: 0 <= k < |nodes| ==>
      r.value[k].id == nodes[k].id && r.value[k].attributes == nodes[k].attributes &&
      r.value[k].metadata != Unset
    ensures r.Ok? ==> forall k :: 0 <= k < |nodes| ==>
      r.value[k] == Annotate(nodes[k], LoadGraph(data, parse).value.value, fetch)
  {
    var loaded := LoadGraph(data, parse);
    if loaded.Err? {
      return Err(loaded.error);
    }
    var graph := loaded.value;
    if |nodes| == 0 {
      return Ok([]);
    }
    if !Queryable(graph) {
      return Err(GraphNotQueryable);
    }
    var annotated := AnnotateEach(nodes, n => Annotate(n, graph.value, fetch));
    return Ok(annotated);
  }

  /** The source's loop over the nodes: `annotate` applied to each node, in order. */
  method AnnotateEach(nodes: seq<Node>, annotate: Node -> Node) returns (annotated: seq<Node>)
    ensures |annotated| == |nodes|
    ensures forall k :: 0 <= k < |nodes| ==> annotated[k] == annotate(nodes[k])
  {
    annotated := [];
    var i := 0;
    while i < |nodes|
      invariant 0 <= i <= |nodes|
      invariant |annotated| == i
      invariant forall k :: 0 <= k < i ==> annotated[k] == annotate(nodes[k])
    {
      annotated := annotated + [annotate(nodes[i])];
      i := i + 1;
    }
  }
}
