/** Building the dependency graph: every source file gets a node, and every
    include line in it adds an edge from that node to the node the include
    resolves to. */
module GraphBuilder {
  import opened Wrappers
  import opened Strings
  import opened Graphs
  import opened NodeNaming
  import opened Settings
  import opened IncludeLine
  import opened IncludeResolution

  /** What the scan guarantees of the graph: no empty node as a key, no
      key without edges, no self edge and no empty destination. */
  predicate WellFormed(g: Graph) {
    "" !in g && forall n :: n in g ==> g[n] != {} && n !in g[n] && "" !in g[n]
  }

  /** The destination a raw line contributes from `node`, if any: the
      trimmed line must open with `#`, match the include pattern, and its
      payload must resolve to a node that is neither empty nor `node`. */
  function LineTarget(cfg: Config, fileExists: string -> bool, node: Node, dir: string, raw: string): (r: Option<Node>)
    ensures r.Some? ==> r.value != "" && r.value != node
    ensures Trim(raw) == [] || Trim(raw)[0] != '#' ==> r.None?
    ensures IncludePayload(Trim(raw)).None? ==> r.None?
    ensures Trim(raw) != [] && Trim(raw)[0] == '#' && IncludePayload(Trim(raw)).Some? ==>
              var dst := NodeFromInclude(cfg, fileExists, node, dir, IncludePayload(Trim(raw)).value);
              r == if dst == "" || dst == node then None else Some(dst)
  {
    var line := Trim(raw);
    if line == [] then None
    else if line[0] != '#' then None
    else
      match IncludePayload(line)
      case None => None
      case Some(incl) =>
        var dst := NodeFromInclude(cfg, fileExists, node, dir, incl);
        if dst == "" then None
        else if node == dst then None
        else Some(dst)
  }

  /** On a line that is already trimmed and laid out as an include
      statement (see `IncludeRoundTrip`), the target is the resolved
      payload, unless that is empty or the including node itself. */
  lemma LaidOutLineTarget(cfg: Config, fileExists: string -> bool, node: Node, dir: string,
                          s: string, j: nat, k: nat, payload: string, close: char, tail: string)
    requires IncludeLayout(s, j, k, payload, close, tail)
    requires !IsSpace(s[|s| - 1])
    ensures var dst := NodeFromInclude(cfg, fileExists, node, dir, payload);
            LineTarget(cfg, fileExists, node, dir, s) == if dst == "" || dst == node then None else Some(dst)
  {
    TrimUntrimmed(s);
    IncludeRoundTrip(s, j, k, payload, close, tail);
  }

  /** A written include statement whose payload resolves to a node other
      than the empty one and the file's own contributes that node. */
  lemma StatementTarget(cfg: Config, fileExists: string -> bool, node: Node, dir: string,
                        open: char, payload: string, close: char, dst: Node)
    requires IsOpener(open) && IsCloser(close) && '\n' !in payload
    requires NodeFromInclude(cfg, fileExists, node, dir, payload) == dst
    ensures LineTarget(cfg, fileExists, node, dir, Statement(open, payload, close))
            == if dst == "" || dst == node then None else Some(dst)
  {
    assert Statement(open, payload, close) + [] == Statement(open, payload, close);
    CommentedStatementTarget(cfg, fileExists, node, dir, open, payload, close, [], dst);
  }

  /** So does one followed on its line by a plain tail (a comment, say)
      that does not end in white space. */
  lemma CommentedStatementTarget(cfg: Config, fileExists: string -> bool, node: Node, dir: string,
                                 open: char, payload: string, close: char, tail: string, dst: Node)
    requires IsOpener(open) && IsCloser(close) && '\n' !in payload && PlainTail(tail)
    requires tail == [] || !IsSpace(tail[|tail| - 1])
    requires NodeFromInclude(cfg, fileExists, node, dir, payload) == dst
    ensures LineTarget(cfg, fileExists, node, dir, Statement(open, payload, close) + tail)
            == if dst == "" || dst == node then None else Some(dst)
  {
    var s := Statement(open, payload, close) + tail;
    StatementLayout(open, payload, close, tail);
    assert s[|s| - 1] == if tail == [] then close else tail[|tail| - 1];
    LaidOutLineTarget(cfg, fileExists, node, dir, s, 1, 9, payload, close, tail);
  }

  /** `graph[src].insert(dst)`: the key is created when missing. */
  function AddEdge(g: Graph, src: Node, dst: Node): (r: Graph)
    ensures r.Keys == g.Keys + {src}
    ensures r[src] == Succ(g, src) + {dst}
    ensures forall n :: n in g && n != src ==> r[n] == g[n]
  {
    g[src := Succ(g, src) + {dst}]
  }

  /** An edge that is neither a self edge nor touches the empty node keeps
      the graph well formed. */
  lemma AddEdgeWellFormed(g: Graph, src: Node, dst: Node)
    requires WellFormed(g) && src != "" && dst != "" && src != dst
    ensures WellFormed(AddEdge(g, src, dst))
  {
    var r := AddEdge(g, src, dst);
    forall n | n in r
      ensures r[n] != {} && n !in r[n] && "" !in r[n]
    {
      if n != src {
        assert r[n] == g[n];
      }
    }
  }

  /** The graph after a line with target `t`: unchanged when there is none,
      otherwise with the edge from `node` to the target added. */
  function AddTarget(g: Graph, node: Node, t: Option<Node>): (r: Graph)
    requires t.Some? ==> t.value != "" && t.value != node
    ensures t.None? ==> r == g
    ensures t.Some? ==> r == g[node := Succ(g, node) + {t.value}]
    ensures WellFormed(g) && node != "" ==> WellFormed(r)
    ensures forall n :: n in r && n != node ==> n in g && r[n] == g[n]
    ensures forall n :: n in g ==> n in r && g[n] <= r[n]
  {
    match t
    case None => g
    case Some(dst) =>
      if WellFormed(g) && node != "" then
        AddEdgeWellFormed(g, node, dst);
        AddEdge(g, node, dst)
      else
        AddEdge(g, node, dst)
  }

  /** One pass of the per-line loop. */
  function ProcessLine(cfg: Config, fileExists: string -> bool, g: Graph, node: Node, dir: string, raw: string): (r: Graph)
    ensures LineTarget(cfg, fileExists, node, dir, raw).None? ==> r == g
    ensures LineTarget(cfg, fileExists, node, dir, raw).Some? ==>
              r == g[node := Succ(g, node) + {LineTarget(cfg, fileExists, node, dir, raw).value}]
    ensures WellFormed(g) && node != "" ==> WellFormed(r)
    ensures forall n :: n in r && n != node ==> n in g && r[n] == g[n]
    ensures forall n :: n in g ==> n in r && g[n] <= r[n]
  {
    AddTarget(g, node, LineTarget(cfg, fileExists, node, dir, raw))
  }

  /** Adding the same target twice changes nothing the second time. */
  lemma AddTargetIdempotent(g: Graph, node: Node, t: Option<Node>)
    requires t.Some? ==> t.value != "" && t.value != node
    ensures AddTarget(AddTarget(g, node, t), node, t) == AddTarget(g, node, t)
  {
    if t.Some? {
      var once := AddEdge(g, node, t.value);
      assert Succ(once, node) + {t.value} == Succ(once, node);
    }
  }

  /** Processing the same line twice changes nothing the second time. */
  lemma ProcessLineIdempotent(cfg: Config, fileExists: string -> bool, g: Graph, node: Node, dir: string, raw: string)
    ensures ProcessLine(cfg, fileExists, ProcessLine(cfg, fileExists, g, node, dir, raw), node, dir, raw)
            == ProcessLine(cfg, fileExists, g, node, dir, raw)
  {
    AddTargetIdempotent(g, node, LineTarget(cfg, fileExists, node, dir, raw));
  }

  /** All lines of one file, in order. */
  function ScanLines(cfg: Config, fileExists: string -> bool, g: Graph, node: Node, dir: string, lines: seq<string>): Graph
    decreases |lines|
  {
    if lines == [] then g
    else ProcessLine(cfg, fileExists, ScanLines(cfg, fileExists, g, node, dir, lines[..|lines| - 1]), node, dir, lines[|lines| - 1])
  }

  /** Scanning one more line is one more `ProcessLine`. */
  lemma ScanLinesStep(cfg: Config, fileExists: string -> bool, g0: Graph, node: Node, dir: string, lines: seq<string>, i: nat)
    requires i < |lines|
    ensures ScanLines(cfg, fileExists, g0, node, dir, lines[..i + 1])
            == ProcessLine(cfg, fileExists, ScanLines(cfg, fileExists, g0, node, dir, lines[..i]), node, dir, lines[i])
  {
    assert lines[..i + 1][..i] == lines[..i];
  }

  /** Scanning the lines of a file with a non-empty node keeps the graph
      well formed. */
  lemma {:induction false} ScanLinesWellFormed(cfg: Config, fileExists: string -> bool, g: Graph, node: Node, dir: string, lines: seq<string>)
    requires WellFormed(g) && node != ""
    ensures WellFormed(ScanLines(cfg, fileExists, g, node, dir, lines))
    decreases |lines|
  {
    if lines != [] {
      ScanLinesWellFormed(cfg, fileExists, g, node, dir, lines[..|lines| - 1]);
    }
  }

  /** Scanning only ever adds edges out of the file's own node. */
  lemma {:induction false} ScanLinesTouchesOwnKey(cfg: Config, fileExists: string -> bool, g: Graph, node: Node, dir: string, lines: seq<string>)
    ensures var r := ScanLines(cfg, fileExists, g, node, dir, lines);
            && (forall n :: n in r && n != node ==> n in g && r[n] == g[n])
            && (forall n :: n in g ==> n in r && g[n] <= r[n])
    decreases |lines|
  {
    if lines != [] {
      ScanLinesTouchesOwnKey(cfg, fileExists, g, node, dir, lines[..|lines| - 1]);
    }
  }

  /** The target of each line of a file, in order. */
  function LineTargets(cfg: Config, fileExists: string -> bool, node: Node, dir: string, lines: seq<string>): (r: seq<Option<Node>>)
    ensures |r| == |lines|
    ensures forall i :: 0 <= i < |lines| ==> r[i] == LineTarget(cfg, fileExists, node, dir, lines[i])
  {
    seq(|lines|, i requires 0 <= i < |lines| => LineTarget(cfg, fileExists, node, dir, lines[i]))
  }

  /** The destinations found in a sequence of line targets. */
  function Found(ts: seq<Option<Node>>): set<Node>
    decreases |ts|
  {
    if ts == [] then {}
    else
      var t := ts[|ts| - 1];
      Found(ts[..|ts| - 1]) + (if t.Some? then {t.value} else {})
  }

  /** A destination is found exactly when some line target names it. */
  lemma {:induction false} FoundMembers(ts: seq<Option<Node>>, dst: Node)
    ensures dst in Found(ts) <==> exists i :: 0 <= i < |ts| && ts[i] == Some(dst)
    decreases |ts|
  {
    if ts != [] {
      var init := ts[..|ts| - 1];
      FoundMembers(init, dst);
      if exists i :: 0 <= i < |ts| && ts[i] == Some(dst) {
        var i :| 0 <= i < |ts| && ts[i] == Some(dst);
        if i < |init| {
          assert init[i] == ts[i];
        }
      }
    }
  }

  /** Adding a sequence of line targets to one node, one after another. */
  function AddTargets(g: Graph, node: Node, ts: seq<Option<Node>>): Graph
    requires forall i :: 0 <= i < |ts| && ts[i].Some? ==> ts[i].value != "" && ts[i].value != node
    decreases |ts|
  {
    if ts == [] then g
    else AddTarget(AddTargets(g, node, ts[..|ts| - 1]), node, ts[|ts| - 1])
  }

  /** Adding the targets in turn adds exactly the found destinations to the
      node's successors, and changes nothing when none is found. */
  lemma {:induction false} AddTargetsFound(g: Graph, node: Node, ts: seq<Option<Node>>)
    requires forall i :: 0 <= i < |ts| && ts[i].Some? ==> ts[i].value != "" && ts[i].value != node
    ensures AddTargets(g, node, ts) == if Found(ts) == {} then g else g[node := Succ(g, node) + Found(ts)]
    decreases |ts|
  {
    if ts != [] {
      var init := ts[..|ts| - 1];
      AddTargetsFound(g, node, init);
      var t := ts[|ts| - 1];
      var r0 := AddTargets(g, node, init);
      assert AddTargets(g, node, ts) == AddTarget(r0, node, t);
      if t.Some? {
        assert Found(ts) == Found(init) + {t.value};
        if Found(init) == {} {
          assert Found(ts) == {t.value};
        } else {
          assert Succ(r0, node) + {t.value} == Succ(g, node) + Found(ts);
        }
      } else {
        assert Found(ts) == Found(init);
      }
    }
  }

  /** Scanning the lines of a file adds their targets in order. */
  lemma {:induction false} ScanLinesAddsTargets(cfg: Config, fileExists: string -> bool, g: Graph, node: Node, dir: string, lines: seq<string>)
    ensures AddTargets(g, node, LineTargets(cfg, fileExists, node, dir, lines)) == ScanLines(cfg, fileExists, g, node, dir, lines)
    decreases |lines|
  {
    if lines != [] {
      var init := lines[..|lines| - 1];
      ScanLinesAddsTargets(cfg, fileExists, g, node, dir, init);
      assert LineTargets(cfg, fileExists, node, dir, lines)[..|lines| - 1] == LineTargets(cfg, fileExists, node, dir, init);
    }
  }

  /** Scanning a file adds to the file's own node exactly the destinations
      its lines resolve to, and changes nothing when no line resolves. */
  lemma ScanLinesEdges(cfg: Config, fileExists: string -> bool, g: Graph, node: Node, dir: string, lines: seq<string>)
    ensures var ts := Found(LineTargets(cfg, fileExists, node, dir, lines));
            ScanLines(cfg, fileExists, g, node, dir, lines) == if ts == {} then g else g[node := Succ(g, node) + ts]
    ensures forall dst :: dst in Found(LineTargets(cfg, fileExists, node, dir, lines)) <==>
              exists i :: 0 <= i < |lines| && LineTargets(cfg, fileExists, node, dir, lines)[i] == Some(dst)
  {
    var ts := LineTargets(cfg, fileExists, node, dir, lines);
    ScanLinesAddsTargets(cfg, fileExists, g, node, dir, lines);
    AddTargetsFound(g, node, ts);
    forall dst {
      FoundMembers(ts, dst);
    }
  }

  /** The loop over the lines of one file. */
  method ScanFile(cfg: Config, fileExists: string -> bool, g0: Graph, node: Node, dir: string, lines: seq<string>)
    returns (g: Graph)
    ensures g == ScanLines(cfg, fileExists, g0, node, dir, lines)
  {
    g := g0;
    var i := 0;
    while i < |lines|
      invariant 0 <= i <= |lines|
      invariant g == ScanLines(cfg, fileExists, g0, node, dir, lines[..i])
    {
      ScanLinesStep(cfg, fileExists, g0, node, dir, lines, i);
      var target := LineTarget(cfg, fileExists, node, dir, lines[i]);
      ghost var before := g;
      if target.Some? {
        g := g[node := Succ(g, node) + {target.value}];
      }
      assert g == ProcessLine(cfg, fileExists, before, node, dir, lines[i]);
      i := i + 1;
    }
    assert lines[..|lines|] == lines;
  }

  /** A file found under an input directory, with its absolute path, the
      absolute path of its directory, and its lines. */
  datatype SourceFile = SourceFile(absolutePath: string, absoluteDir: string, lines: seq<string>)

  /** An input directory and the files found under it. */
  datatype InputDir = InputDir(root: string, files: seq<SourceFile>)

  /** The input directory with a trailing `/`. */
  function WithSlash(root: string): (r: string)
    ensures EndsWith(r, "/")
    ensures EndsWith(root, "/") ==> r == root
    ensures !EndsWith(root, "/") ==> r == root + "/"
  {
    if EndsWith(root, "/") then root else root + "/"
  }

  /** A file's path relative to its input directory; a path outside it is
      kept whole. */
  function RelativePath(root: string, path: string): (r: string)
    ensures StartsWith(path, WithSlash(root)) ==> WithSlash(root) + r == path
    ensures !StartsWith(path, WithSlash(root)) ==> r == path
  {
    var dir := WithSlash(root);
    if StartsWith(path, dir) then path[|dir|..] else path
  }

  /** The node of a file: its relative path named at the configured
      granularity. */
  function FileNode(cfg: Config, root: string, f: SourceFile): Node {
    NodeFromSourceFile(cfg.ignorePath, cfg.granularity, RelativePath(root, f.absolutePath))
  }

  /** One file: skipped when its node is empty, scanned otherwise. */
  function AddFile(cfg: Config, fileExists: string -> bool, g: Graph, root: string, f: SourceFile): Graph {
    var node := FileNode(cfg, root, f);
    if node == "" then g else ScanLines(cfg, fileExists, g, node, f.absoluteDir, f.lines)
  }

  /** The files of one input directory, in order. */
  function AddFiles(cfg: Config, fileExists: string -> bool, g: Graph, root: string, files: seq<SourceFile>): Graph
    decreases |files|
  {
    if files == [] then g
    else AddFile(cfg, fileExists, AddFiles(cfg, fileExists, g, root, files[..|files| - 1]), root, files[|files| - 1])
  }

  /** All input directories, in order. */
  function AddInputs(cfg: Config, fileExists: string -> bool, g: Graph, inputs: seq<InputDir>): Graph
    decreases |inputs|
  {
    if inputs == [] then g
    else
      var last := inputs[|inputs| - 1];
      AddFiles(cfg, fileExists, AddInputs(cfg, fileExists, g, inputs[..|inputs| - 1]), last.root, last.files)
  }

  /** Every file keeps the graph well formed: a skipped file changes
      nothing, a scanned one has a non-empty node. */
  lemma AddFileWellFormed(cfg: Config, fileExists: string -> bool, g: Graph, root: string, f: SourceFile)
    requires WellFormed(g)
    ensures WellFormed(AddFile(cfg, fileExists, g, root, f))
  {
    var node := FileNode(cfg, root, f);
    if node != "" {
      ScanLinesWellFormed(cfg, fileExists, g, node, f.absoluteDir, f.lines);
    }
  }

  /** The files of one input directory keep the graph well formed. */
  lemma {:induction false} AddFilesWellFormed(cfg: Config, fileExists: string -> bool, g: Graph, root: string, files: seq<SourceFile>)
    requires WellFormed(g)
    ensures WellFormed(AddFiles(cfg, fileExists, g, root, files))
    decreases |files|
  {
    if files != [] {
      AddFilesWellFormed(cfg, fileExists, g, root, files[..|files| - 1]);
      AddFileWellFormed(cfg, fileExists, AddFiles(cfg, fileExists, g, root, files[..|files| - 1]), root, files[|files| - 1]);
    }
  }

  /** All input directories keep the graph well formed. */
  lemma {:induction false} AddInputsWellFormed(cfg: Config, fileExists: string -> bool, g: Graph, inputs: seq<InputDir>)
    requires WellFormed(g)
    ensures WellFormed(AddInputs(cfg, fileExists, g, inputs))
    decreases |inputs|
  {
    if inputs != [] {
      var last := inputs[|inputs| - 1];
      AddInputsWellFormed(cfg, fileExists, g, inputs[..|inputs| - 1]);
      AddFilesWellFormed(cfg, fileExists, AddInputs(cfg, fileExists, g, inputs[..|inputs| - 1]), last.root, last.files);
    }
  }

  /** Adding one more file is one more `AddFile`. */
  lemma AddFilesStep(cfg: Config, fileExists: string -> bool, g0: Graph, root: string, files: seq<SourceFile>, j: nat)
    requires j < |files|
    ensures AddFiles(cfg, fileExists, g0, root, files[..j + 1])
            == AddFile(cfg, fileExists, AddFiles(cfg, fileExists, g0, root, files[..j]), root, files[j])
  {
    assert files[..j + 1][..j] == files[..j];
  }

  /** The destinations file `f` under `root` adds to node `a`: those its
      lines resolve to when it is scanned as `a`, and none otherwise. */
  function FileEdges(cfg: Config, fileExists: string -> bool, root: string, f: SourceFile, a: Node): set<Node> {
    if a != "" && FileNode(cfg, root, f) == a then Found(LineTargets(cfg, fileExists, a, f.absoluteDir, f.lines)) else {}
  }

  /** The destinations the files of one input directory add to node `a`. */
  function FilesEdges(cfg: Config, fileExists: string -> bool, root: string, files: seq<SourceFile>, a: Node): set<Node>
    decreases |files|
  {
    if files == [] then {}
    else FilesEdges(cfg, fileExists, root, files[..|files| - 1], a) + FileEdges(cfg, fileExists, root, files[|files| - 1], a)
  }

  /** The destinations all input directories add to node `a`. */
  function InputsEdges(cfg: Config, fileExists: string -> bool, inputs: seq<InputDir>, a: Node): set<Node>
    decreases |inputs|
  {
    if inputs == [] then {}
    else
      var last := inputs[|inputs| - 1];
      InputsEdges(cfg, fileExists, inputs[..|inputs| - 1], a) + FilesEdges(cfg, fileExists, last.root, last.files, a)
  }

  /** A file adds to a node's successors exactly what its lines resolve to,
      when it is scanned as that node. */
  lemma AddFileEdges(cfg: Config, fileExists: string -> bool, g: Graph, root: string, f: SourceFile, a: Node)
    ensures Succ(AddFile(cfg, fileExists, g, root, f), a) == Succ(g, a) + FileEdges(cfg, fileExists, root, f, a)
  {
    var node := FileNode(cfg, root, f);
    if node != "" {
      ScanLinesEdges(cfg, fileExists, g, node, f.absoluteDir, f.lines);
    }
  }

  /** The files of one input directory add exactly their edges. */
  lemma {:induction false} AddFilesEdges(cfg: Config, fileExists: string -> bool, g: Graph, root: string, files: seq<SourceFile>, a: Node)
    ensures Succ(AddFiles(cfg, fileExists, g, root, files), a) == Succ(g, a) + FilesEdges(cfg, fileExists, root, files, a)
    decreases |files|
  {
    if files != [] {
      var init := files[..|files| - 1];
      AddFilesEdges(cfg, fileExists, g, root, init, a);
      AddFileEdges(cfg, fileExists, AddFiles(cfg, fileExists, g, root, init), root, files[|files| - 1], a);
    }
  }

  /** All input directories add exactly their edges. */
  lemma {:induction false} AddInputsEdges(cfg: Config, fileExists: string -> bool, g: Graph, inputs: seq<InputDir>, a: Node)
    ensures Succ(AddInputs(cfg, fileExists, g, inputs), a) == Succ(g, a) + InputsEdges(cfg, fileExists, inputs, a)
    decreases |inputs|
  {
    if inputs != [] {
      var init := inputs[..|inputs| - 1];
      var last := inputs[|inputs| - 1];
      AddInputsEdges(cfg, fileExists, g, init, a);
      AddFilesEdges(cfg, fileExists, AddInputs(cfg, fileExists, g, init), last.root, last.files, a);
    }
  }

  /** The destinations each file of a directory adds to node `a`. */
  function EdgeSets(cfg: Config, fileExists: string -> bool, root: string, files: seq<SourceFile>, a: Node): (r: seq<set<Node>>)
    ensures |r| == |files|
    ensures forall j :: 0 <= j < |files| ==> r[j] == FileEdges(cfg, fileExists, root, files[j], a)
  {
    seq(|files|, j requires 0 <= j < |files| => FileEdges(cfg, fileExists, root, files[j], a))
  }

  /** The union of a sequence of sets. */
  function Union(ss: seq<set<Node>>): set<Node>
    decreases |ss|
  {
    if ss == [] then {} else Union(ss[..|ss| - 1]) + ss[|ss| - 1]
  }

  /** An element of a union is in one of its sets. */
  lemma {:induction false} UnionMembers(ss: seq<set<Node>>, b: Node)
    ensures b in Union(ss) <==> exists j :: 0 <= j < |ss| && b in ss[j]
    decreases |ss|
  {
    if ss != [] {
      var init := ss[..|ss| - 1];
      UnionMembers(init, b);
      if exists j :: 0 <= j < |ss| && b in ss[j] {
        var j :| 0 <= j < |ss| && b in ss[j];
        if j < |init| {
          assert init[j] == ss[j];
        }
      }
    }
  }

  /** The destinations of a directory's files are the union of each file's. */
  lemma {:induction false} FilesEdgesUnion(cfg: Config, fileExists: string -> bool, root: string, files: seq<SourceFile>, a: Node)
    ensures FilesEdges(cfg, fileExists, root, files, a) == Union(EdgeSets(cfg, fileExists, root, files, a))
    decreases |files|
  {
    if files != [] {
      var init := files[..|files| - 1];
      FilesEdgesUnion(cfg, fileExists, root, init, a);
      assert EdgeSets(cfg, fileExists, root, files, a)[..|files| - 1] == EdgeSets(cfg, fileExists, root, init, a);
    }
  }

  /** A destination is added by the files of a directory exactly when one
      of them adds it. */
  lemma FilesEdgesMembers(cfg: Config, fileExists: string -> bool, root: string, files: seq<SourceFile>, a: Node, b: Node)
    ensures b in FilesEdges(cfg, fileExists, root, files, a) <==>
            exists j :: 0 <= j < |files| && b in EdgeSets(cfg, fileExists, root, files, a)[j]
  {
    FilesEdgesUnion(cfg, fileExists, root, files, a);
    UnionMembers(EdgeSets(cfg, fileExists, root, files, a), b);
  }

  /** A destination is added by the input directories exactly when some
      file of one of them adds it. */
  lemma {:induction false} InputsEdgesMembers(cfg: Config, fileExists: string -> bool, inputs: seq<InputDir>, a: Node, b: Node)
    ensures b in InputsEdges(cfg, fileExists, inputs, a) <==>
            exists i :: 0 <= i < |inputs| && b in FilesEdges(cfg, fileExists, inputs[i].root, inputs[i].files, a)
    decreases |inputs|
  {
    if inputs != [] {
      var init := inputs[..|inputs| - 1];
      InputsEdgesMembers(cfg, fileExists, init, a, b);
      if exists i :: 0 <= i < |inputs| && b in FilesEdges(cfg, fileExists, inputs[i].root, inputs[i].files, a) {
        var i :| 0 <= i < |inputs| && b in FilesEdges(cfg, fileExists, inputs[i].root, inputs[i].files, a);
        if i < |init| {
          assert init[i] == inputs[i];
        }
      }
      if exists i :: 0 <= i < |init| && b in FilesEdges(cfg, fileExists, init[i].root, init[i].files, a) {
        var i :| 0 <= i < |init| && b in FilesEdges(cfg, fileExists, init[i].root, init[i].files, a);
        assert init[i] == inputs[i];
      }
    }
  }

  /** A file adds `b` to `a` exactly when it is scanned as `a` and one of
      its lines resolves to `b`. */
  lemma FileEdgesMembers(cfg: Config, fileExists: string -> bool, root: string, f: SourceFile, a: Node, b: Node)
    ensures b in FileEdges(cfg, fileExists, root, f, a) <==>
            && a != "" && FileNode(cfg, root, f) == a
            && exists l :: 0 <= l < |f.lines| && LineTargets(cfg, fileExists, a, f.absoluteDir, f.lines)[l] == Some(b)
  {
    FoundMembers(LineTargets(cfg, fileExists, a, f.absoluteDir, f.lines), b);
  }

  /** The graph of a whole run has the edge `a -> b` exactly when some file
      of some input directory adds it, that is (by `FileEdgesMembers`) when
      that file is scanned as `a` and one of its lines resolves to `b`. */
  lemma BuildGraphEdges(cfg: Config, fileExists: string -> bool, inputs: seq<InputDir>, a: Node, b: Node)
    ensures b in Succ(AddInputs(cfg, fileExists, map[], inputs), a) <==>
            exists i, j :: && 0 <= i < |inputs| && 0 <= j < |inputs[i].files|
                           && b in EdgeSets(cfg, fileExists, inputs[i].root, inputs[i].files, a)[j]
  {
    AddInputsEdges(cfg, fileExists, map[], inputs, a);
    InputsEdgesMembers(cfg, fileExists, inputs, a, b);
    forall i | 0 <= i < |inputs| {
      FilesEdgesMembers(cfg, fileExists, inputs[i].root, inputs[i].files, a, b);
    }
  }

  /** The loop over the files of one input directory. */
  method ScanDir(cfg: Config, fileExists: string -> bool, g0: Graph, root: string, files: seq<SourceFile>)
    returns (g: Graph)
    ensures g == AddFiles(cfg, fileExists, g0, root, files)
  {
    g := g0;
    for j := 0 to |files|
      invariant g == AddFiles(cfg, fileExists, g0, root, files[..j])
    {
      AddFilesStep(cfg, fileExists, g0, root, files, j);
      var f := files[j];
      var node := FileNode(cfg, root, f);
      if node != "" {
        g := ScanFile(cfg, fileExists, g, node, f.absoluteDir, f.lines);
      }
    }
    assert files[..|files|] == files;
  }

  /** The scanning loops of the program's main routine, from an empty graph. */
  method BuildGraph(cfg: Config, fileExists: string -> bool, inputs: seq<InputDir>) returns (g: Graph)
    ensures g == AddInputs(cfg, fileExists, map[], inputs)
    ensures WellFormed(g)
  {
    g := map[];
    for i := 0 to |inputs|
      invariant g == AddInputs(cfg, fileExists, map[], inputs[..i])
    {
      assert inputs[..i + 1][..i] == inputs[..i];
      g := ScanDir(cfg, fileExists, g, inputs[i].root, inputs[i].files);
    }
    assert inputs[..|inputs|] == inputs;
    AddInputsWellFormed(cfg, fileExists, map[], inputs);
  }

  /** When every path is ignored, no file adds anything. */
  lemma {:induction false} AllIgnoredFilesAddNothing(cfg: Config, fileExists: string -> bool, g: Graph, root: string, files: seq<SourceFile>)
    requires forall p :: cfg.ignorePath(p)
    ensures AddFiles(cfg, fileExists, g, root, files) == g
    decreases |files|
  {
    if files != [] {
      AllIgnoredFilesAddNothing(cfg, fileExists, g, root, files[..|files| - 1]);
    }
  }

  /** As written, an absent `FileIgnorePattern` ignores every path, so the
      graph stays empty whatever the input. */
  lemma {:induction false} UnsetPatternGivesEmptyGraph(cfg: Config, fileExists: string -> bool, inputs: seq<InputDir>)
    requires cfg.ignorePath == IgnoreTestAsWritten(None)
    ensures AddInputs(cfg, fileExists, map[], inputs) == map[]
    decreases |inputs|
  {
    if inputs != [] {
      UnsetPatternGivesEmptyGraph(cfg, fileExists, inputs[..|inputs| - 1]);
      var last := inputs[|inputs| - 1];
      AllIgnoredFilesAddNothing(cfg, fileExists, map[], last.root, last.files);
    }
  }

  /** With the corrected ignore test, an absent `FileIgnorePattern` lets
      every file through: each is named by its stripped path (or that
      path's module) and its lines are scanned. */
  lemma UnsetPatternScansEveryFile(cfg: Config, root: string, f: SourceFile)
    requires cfg.ignorePath == IgnoreTest(None)
    ensures var path := RelativePath(root, f.absolutePath);
            FileNode(cfg, root, f) == if cfg.granularity == Classes then StripExtension(path) else ModuleOf(StripExtension(path))
  {
    var path := RelativePath(root, f.absolutePath);
    assert !IgnoreTest(None)(path);
  }
}
