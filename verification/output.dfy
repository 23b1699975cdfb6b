/** What the program emits, modelled as sets rather than text: the
    libraries styled gray, the nodes filled with a blended colour, and the
    edges. Nodes in `LibraryIgnoreList` get no style line, but only the
    destination of an edge is checked against it. */
module Output {
  import opened Wrappers
  import opened Graphs
  import opened Colors
  import opened Settings
  import opened Coloring
  import opened GraphBuilder

  /** The names of all configured libraries, prefixed and known. */
  function Libraries(cfg: Config): set<Node> {
    cfg.prefixedLibs.Values + cfg.knownLibs.Values
  }

  /** A library gets a gray style line when it is a node of the graph and is
      not ignored. */
  predicate StyledGray(cfg: Config, nodes: set<Node>, lib: Node) {
    lib in Libraries(cfg) && lib in nodes && lib !in cfg.ignoredLibs
  }

  /** The loop over the libraries that emits the gray style lines. */
  method GrayLibraries(cfg: Config, nodes: set<Node>) returns (gray: set<Node>)
    ensures forall lib :: lib in gray <==> StyledGray(cfg, nodes, lib)
  {
    gray := {};
    var libs := ToList(Libraries(cfg));
    for i := 0 to |libs|
      invariant forall lib :: lib in gray <==> lib in libs[..i] && lib in nodes && lib !in cfg.ignoredLibs
    {
      var lib := libs[i];
      if lib in nodes && lib !in cfg.ignoredLibs {
        gray := gray + {lib};
      }
    }
    assert libs[..|libs|] == libs;
  }

  /** `colored` holds, for every node of `nodes` that is not ignored and has
      a colour, that colour, and nothing else. */
  ghost predicate ColorsNodes(colored: map<Node, Rgb>, g: Graph, nodes: set<Node>, ignored: set<Node>, seeds: seq<Seed>) {
    && (forall n :: n in colored <==> n in nodes && n !in ignored && SeedColor(g, n, seeds).Some?)
    && (forall n :: n in colored ==> Some(colored[n]) == SeedColor(g, n, seeds))
  }

  /** The node-colouring pass: skip ignored nodes, compute the colour of
      every other node, and style those that got one. */
  method ColorNodes(g: Graph, nodes: set<Node>, ignored: set<Node>, seeds: seq<Seed>) returns (colored: map<Node, Rgb>)
    ensures ColorsNodes(colored, g, nodes, ignored, seeds)
  {
    colored := map[];
    var remaining := nodes;
    while remaining != {}
      invariant remaining <= nodes
      invariant ColorsNodes(colored, g, nodes - remaining, ignored, seeds)
      decreases remaining
    {
      var node :| node in remaining;
      remaining := remaining - {node};
      if node !in ignored {
        var color := ColorOf(g, node, seeds);
        if color.Some? {
          colored := colored[node := color.value];
        }
      }
    }
  }

  /** An edge line `src -> dst` is emitted for every edge whose destination
      is not ignored; the source is not checked. */
  predicate EmitsEdge(g: Graph, ignored: set<Node>, src: Node, dst: Node) {
    src in g && dst in g[src] && dst !in ignored
  }

  /** The nested loop over the graph that emits the edge lines. */
  method EmitEdges(g: Graph, ignored: set<Node>) returns (edges: set<(Node, Node)>)
    ensures forall src, dst :: (src, dst) in edges <==> EmitsEdge(g, ignored, src, dst)
  {
    edges := {};
    var keys := ToList(g.Keys);
    for i := 0 to |keys|
      invariant forall src, dst :: (src, dst) in edges <==> src in keys[..i] && EmitsEdge(g, ignored, src, dst)
    {
      var src := keys[i];
      var dsts := ToList(g[src]);
      ghost var before := edges;
      for j := 0 to |dsts|
        invariant forall s, d :: (s, d) in edges <==> (s, d) in before || (s == src && d in dsts[..j] && d !in ignored)
      {
        var dst := dsts[j];
        if dst !in ignored {
          edges := edges + {(src, dst)};
        }
      }
      assert dsts[..|dsts|] == dsts;
      assert keys[..i + 1] == keys[..i] + [src];
    }
    assert keys[..|keys|] == keys;
  }

  /** Every emitted edge is an edge of the graph; in a graph built by the
      scan it joins two distinct, non-empty nodes of the graph. */
  lemma EmittedEdgeIsEdge(g: Graph, ignored: set<Node>, src: Node, dst: Node)
    requires WellFormed(g) && EmitsEdge(g, ignored, src, dst)
    ensures dst in Succ(g, src) && src in NodesOf(g) && dst in NodesOf(g)
    ensures src != "" && dst != "" && src != dst && dst !in ignored
  {
  }

  /** The filter is one-sided: an edge out of an ignored node is still
      emitted as long as its destination is not ignored. */
  lemma IgnoredSourceStillEmitted()
    ensures EmitsEdge(map["lib" := {"app"}], {"lib"}, "lib", "app")
    ensures !EmitsEdge(map["app" := {"lib"}], {"lib"}, "app", "lib")
  {
  }

  /** The emitted document. */
  datatype Document = Document(gray: set<Node>, colored: map<Node, Rgb>, edges: set<(Node, Node)>)

  /** The document says exactly what the three output passes promise about
      graph `g` under `cfg`. */
  ghost predicate Describes(doc: Document, cfg: Config, g: Graph) {
    && (forall lib :: lib in doc.gray <==> StyledGray(cfg, NodesOf(g), lib))
    && ColorsNodes(doc.colored, g, NodesOf(g), cfg.ignoredLibs, cfg.coloring)
    && (forall src, dst :: (src, dst) in doc.edges <==> EmitsEdge(g, cfg.ignoredLibs, src, dst))
  }

  /** The output passes of the program's main routine. */
  method Render(cfg: Config, g: Graph) returns (doc: Document)
    ensures Describes(doc, cfg, g)
  {
    var nodes := AllNodes(g);
    assert nodes == NodesOf(g);
    var gray := GrayLibraries(cfg, nodes);
    var colored := ColorNodes(g, nodes, cfg.ignoredLibs, cfg.coloring);
    var edges := EmitEdges(g, cfg.ignoredLibs);
    doc := Document(gray, colored, edges);
  }

  /** The whole run: scan the inputs into a graph, then render it. */
  method Run(cfg: Config, fileExists: string -> bool, inputs: seq<InputDir>) returns (g: Graph, doc: Document)
    ensures g == AddInputs(cfg, fileExists, map[], inputs) && WellFormed(g)
    ensures Describes(doc, cfg, g)
  {
    g := BuildGraph(cfg, fileExists, inputs);
    doc := Render(cfg, g);
  }
}
