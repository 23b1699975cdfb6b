/** Worked examples of include resolution and of a whole run over a small
    source tree. */
module Scenarios {
  import opened Wrappers
  import opened Strings
  import opened Graphs
  import opened NodeNaming
  import opened Settings
  import opened IncludeLine
  import opened IncludeResolution
  import opened GraphBuilder
  import opened Coloring
  import opened Output

  /** A configuration at class granularity that ignores nothing, with
      `boost` as a prefixed library and `zlib.h` and `QtCore` as known
      headers. */
  function ExampleConfig(ignorePath: string -> bool): Config {
    Config(ignorePath, {}, Classes, map["boost" := "Boost"], map["zlib.h" := "ZLib", "QtCore" := "Qt"], [])
  }

  /** Only `/p/a/Bar.h` exists on disk. */
  function ExampleExists(path: string): bool {
    path == "/p/a/Bar.h"
  }

  /** Headers without a dot or slash are the standard library. */
  lemma StandardHeaders(src: Node, dir: string)
    ensures NodeFromInclude(ExampleConfig(IgnoreTest(None)), ExampleExists, src, dir, "vector") == StandardLibrary
    ensures NodeFromInclude(ExampleConfig(IgnoreTest(None)), ExampleExists, src, dir, "list") == StandardLibrary
  {
    assert IsStandardHeader("vector");
    assert IsStandardHeader("list");
  }

  /** `boost/optional.hpp` belongs to the library registered for the
      `boost` prefix. */
  lemma PrefixedHeader(src: Node, dir: string)
    ensures NodeFromInclude(ExampleConfig(IgnoreTest(None)), ExampleExists, src, dir, "boost" + "/" + "optional.hpp") == "Boost"
  {
    PrefixedResolves(ExampleConfig(IgnoreTest(None)), ExampleExists, src, dir, "boost", "optional.hpp");
  }

  /** `zlib.h` is neither a standard, a prefixed nor (from `/p/a`) a
      sibling header, but it is a known one. */
  lemma KnownHeaderPremises()
    ensures !IsStandardHeader("zlib.h") && !IsPrefixedHeader(ExampleConfig(IgnoreTest(None)), "zlib.h")
    ensures !IsSiblingHeader(ExampleExists, "/p/a", "zlib.h") && "zlib.h" in ExampleConfig(IgnoreTest(None)).knownLibs
  {
    assert "zlib.h"[4] == '.';
    assert "/p/a" + "/" + "zlib.h" != "/p/a/Bar.h" by {
      assert ("/p/a" + "/" + "zlib.h")[5] != "/p/a/Bar.h"[5];
    }
  }

  /** A header listed as known, with a dot, is resolved through that table
      (no sibling file of that name exists). */
  lemma KnownHeader(src: Node)
    ensures NodeFromInclude(ExampleConfig(IgnoreTest(None)), ExampleExists, src, "/p/a", "zlib.h") == "ZLib"
  {
    KnownHeaderPremises();
  }

  /** A known header without a dot or slash never reaches the known-library
      table: the standard-library rule comes first. */
  lemma KnownHeaderShadowed(src: Node, dir: string)
    ensures NodeFromInclude(ExampleConfig(IgnoreTest(None)), ExampleExists, src, dir, "QtCore") == StandardLibrary
    ensures "QtCore" in ExampleConfig(IgnoreTest(None)).knownLibs
  {
    assert IsStandardHeader("QtCore");
  }

  /** Only `/p/src/X.h` exists on disk. */
  function HeaderExists(path: string): bool {
    path == "/p/src/X.h"
  }

  /** `src/X.cpp` (node `src/X` at class granularity) includes `X.h`,
      which lies beside it: the header resolves to the file's own node. */
  lemma OwnHeaderResolvesToItself()
    ensures NodeFromInclude(ExampleConfig(IgnoreTest(None)), HeaderExists, "src/X", "/p/src", "X.h") == "src/X"
  {
    StemOf("X", "h");
    assert "X" + "." + "h" == "X.h";
    assert IsSiblingHeader(HeaderExists, "/p/src", "X.h");
    assert EndsWith("src/X", "X");
  }

  /** So the include line of that header adds no edge. */
  lemma OwnHeaderAddsNoEdge()
    ensures LineTarget(ExampleConfig(IgnoreTest(None)), HeaderExists, "src/X", "/p/src", Statement('"', "X.h", '"')) == None
  {
    OwnHeaderResolvesToItself();
    StatementTarget(ExampleConfig(IgnoreTest(None)), HeaderExists, "src/X", "/p/src", '"', "X.h", '"', "src/X");
  }

  /** The test for a file's own header compares text, not path segments:
      `src/MyX` ends with `X`, so `X.h` next to it resolves to `src/MyX`
      itself and its include line adds no edge. */
  lemma OwnHeaderTestIsTextual()
    ensures NodeFromInclude(ExampleConfig(IgnoreTest(None)), HeaderExists, "src/MyX", "/p/src", "X.h") == "src/MyX"
  {
    StemOf("X", "h");
    assert "X" + "." + "h" == "X.h";
    assert IsSiblingHeader(HeaderExists, "/p/src", "X.h");
    assert EndsWith("src/MyX", "X");
  }

  /** The spelling of `a.h/b.h` as its parts. */
  lemma RepeatedPathParts()
    ensures "a" + "." + "h" + "/" + "b" + "." + "h" == "a.h/b.h"
    ensures "a" + "/" + "b" == "a/b"
  {
  }

  /** Every `.h` goes, not only the last: `a.h/b.h` is named `a/b`. */
  lemma EveryExtensionDeleted()
    ensures StripExtension("a.h/b.h") == "a/b"
    ensures NodeFromSourceFile(IgnoreTest(None), Classes, "a.h/b.h") == "a/b"
  {
    RepeatedPathParts();
    StripRepeatedExtension("a", "b", "h");
  }

  /** `.h` is no standard, prefixed, sibling or known header. */
  lemma BareExtensionPremises()
    ensures !IsStandardHeader(".h") && !IsPrefixedHeader(ExampleConfig(IgnoreTest(None)), ".h")
    ensures !IsSiblingHeader(ExampleExists, "/p/a", ".h")
    ensures ".h" !in ExampleConfig(IgnoreTest(None)).knownLibs
  {
    assert ".h"[0] == '.';
    assert ExampleConfig(IgnoreTest(None)).knownLibs.Keys == {"zlib.h", "QtCore"};
    assert |".h"| != |"zlib.h"| && |".h"| != |"QtCore"|;
    assert "/p/a" + "/" + ".h" != "/p/a/Bar.h" by {
      assert ("/p/a" + "/" + ".h")[5] != "/p/a/Bar.h"[5];
    }
  }

  /** The source-file naming deletes all of `.h`. */
  lemma BareExtensionStripped()
    ensures StripExtension(".h") == ""
  {
    assert "" + "." + "h" == ".h";
    StripSingleExtension("", "h");
  }

  /** `/x.h` loses its extension. */
  lemma RootFileStripped()
    ensures StripExtension("/x.h") == "/x"
  {
    assert "/x" + "." + "h" == "/x.h";
    StripSingleExtension("/x", "h");
  }

  /** A path whose only `/` comes first has the empty module, so at the
      module granularities it names the empty node with nothing ignored. */
  lemma RootFileHasEmptyModule()
    ensures NodeFromSourceFile(IgnoreTest(None), Modules, "/x.h") == ""
    ensures NodeFromSourceFile(IgnoreTest(None), TopLevelModules, "/x.h") == ""
  {
    RootFileStripped();
    RootModuleEmpty();
    assert !IgnoreTest(None)("/x.h");
  }

  /** The text before the only `/` of `/x` is empty. */
  lemma RootModuleEmpty()
    ensures ModuleOf("/x") == ""
  {
    assert "" + "/" + "x" == "/x";
    ModuleOfPath("", "x");
  }

  /** An include of a bare `.h` that is no sibling and no known header falls
      through to the source-file naming: the include resolves to the empty
      node with nothing ignored. */
  lemma BareExtensionResolvesToEmpty()
    ensures NodeFromInclude(ExampleConfig(IgnoreTest(None)), ExampleExists, "a/Foo", "/p/a", ".h") == ""
  {
    BareExtensionPremises();
    BareExtensionStripped();
  }

  /** The two files of the end-to-end example, under input directory `/p`:
      `a/Foo.cpp` includes `"Bar.h"`, and `a/Bar.h` is empty. */
  const FooFile := SourceFile("/p/a/Foo.cpp", "/p/a", [Statement('"', "Bar.h", '"')])
  const BarFile := SourceFile("/p/a/Bar.h", "/p/a", [])
  const ExampleInputs := [InputDir("/p", [FooFile, BarFile])]

  /** The relative path of a file directly under `/p/a`. */
  lemma RelativeUnderP(name: string)
    ensures RelativePath("/p", "/p/a/" + name) == "a/" + name
  {
    assert WithSlash("/p") == "/p/";
    assert ("/p/a/" + name)[..3] == "/p/";
    assert ("/p/a/" + name)[3..] == "a/" + name;
  }

  /** The paths of the two files, taken apart. */
  lemma ExamplePaths()
    ensures "/p/a/" + "Foo.cpp" == FooFile.absolutePath && "a/" + "Foo.cpp" == "a/Foo" + "." + "cpp"
    ensures "/p/a/" + "Bar.h" == BarFile.absolutePath && "a/" + "Bar.h" == "a/Bar" + "." + "h"
  {
  }

  /** A file at class granularity, nothing ignored, whose relative path
      has a single dot, is named by its path without the extension. */
  lemma ClassNodeOfFile(cfg: Config, root: string, f: SourceFile, stem: string, ext: string)
    requires cfg.ignorePath == IgnoreTest(None) && cfg.granularity == Classes
    requires RelativePath(root, f.absolutePath) == stem + "." + ext
    requires '.' !in stem && '.' !in ext && '/' !in ext
    ensures FileNode(cfg, root, f) == stem
  {
    StripSingleExtension(stem, ext);
    assert !cfg.ignorePath(stem + "." + ext);
  }

  /** `a/Foo.cpp` is named `a/Foo`. */
  lemma FooNode()
    ensures FileNode(ExampleConfig(IgnoreTest(None)), "/p", FooFile) == "a/Foo"
  {
    ExamplePaths();
    RelativeUnderP("Foo.cpp");
    ClassNodeOfFile(ExampleConfig(IgnoreTest(None)), "/p", FooFile, "a/Foo", "cpp");
  }

  /** `a/Bar.h` is named `a/Bar`. */
  lemma BarNode()
    ensures FileNode(ExampleConfig(IgnoreTest(None)), "/p", BarFile) == "a/Bar"
  {
    ExamplePaths();
    RelativeUnderP("Bar.h");
    ClassNodeOfFile(ExampleConfig(IgnoreTest(None)), "/p", BarFile, "a/Bar", "h");
  }

  /** `Bar.h` lies next to `a/Foo.cpp` and has stem `Bar`. */
  lemma BarIsSibling()
    ensures IsSiblingHeader(ExampleExists, "/p/a", "Bar.h")
    ensures Stem("Bar.h") == "Bar"
  {
    StemOf("Bar", "h");
    assert "Bar" + "." + "h" == "Bar.h";
    assert "/p/a" + "/" + "Bar.h" == "/p/a/Bar.h";
  }

  /** Stem `Bar` is not the end of `a/Foo`, so it is placed in `a`. */
  lemma BarBesideFoo()
    ensures SiblingNode("a/Foo", "Bar") == "a/Bar"
  {
    assert "a/Foo"[4] != "Bar"[2];
    ModuleOfPath("a", "Foo");
    assert "a" + "/" + "Foo" == "a/Foo";
    assert "a" + "/" + "Bar" == "a/Bar";
  }

  /** From `a/Foo`, `"Bar.h"` is a sibling header whose stem `Bar` is not
      the end of `a/Foo`, so it names `a/Bar`. */
  lemma FooIncludesBar()
    ensures NodeFromInclude(ExampleConfig(IgnoreTest(None)), ExampleExists, "a/Foo", "/p/a", "Bar.h") == "a/Bar"
  {
    BarIsSibling();
    BarBesideFoo();
  }

  /** What the include line of `a/Foo.cpp` needs: a well-formed `"Bar.h"`
      resolving to `a/Bar`, which is neither empty nor `a/Foo`. */
  lemma FooLinePremises()
    ensures IsOpener('"') && IsCloser('"') && '\n' !in "Bar.h"
    ensures NodeFromInclude(ExampleConfig(IgnoreTest(None)), ExampleExists, "a/Foo", "/p/a", "Bar.h") == "a/Bar"
    ensures "a/Bar" != "" && "a/Bar" != "a/Foo"
  {
    FooIncludesBar();
    assert "a/Bar"[2] != "a/Foo"[2];
  }

  /** The include line of `a/Foo.cpp` contributes the edge to `a/Bar`. */
  lemma FooLineTarget()
    ensures LineTarget(ExampleConfig(IgnoreTest(None)), ExampleExists, "a/Foo", "/p/a", Statement('"', "Bar.h", '"')) == Some("a/Bar")
  {
    FooLinePremises();
    StatementTarget(ExampleConfig(IgnoreTest(None)), ExampleExists, "a/Foo", "/p/a", '"', "Bar.h", '"', "a/Bar");
  }

  /** ` // Bar` is plain text to follow an include: no closer, no line
      feed, no white space at its end. */
  lemma CommentPremises()
    ensures PlainTail(" // Bar") && !IsSpace(" // Bar"[|" // Bar"| - 1])
  {
  }

  /** A comment after the include changes nothing: the greedy capture stops
      at the last closer, so `#include "Bar.h" // Bar` still gives the
      edge to `a/Bar`. */
  lemma CommentedLineTarget()
    ensures LineTarget(ExampleConfig(IgnoreTest(None)), ExampleExists, "a/Foo", "/p/a", Statement('"', "Bar.h", '"') + " // Bar") == Some("a/Bar")
  {
    FooLinePremises();
    CommentPremises();
    CommentedStatementTarget(ExampleConfig(IgnoreTest(None)), ExampleExists, "a/Foo", "/p/a", '"', "Bar.h", '"', " // Bar", "a/Bar");
  }

  /** A file of one line is scanned by one `ProcessLine`. */
  lemma ScanOneLine(cfg: Config, fileExists: string -> bool, g: Graph, node: Node, dir: string, line: string)
    ensures ScanLines(cfg, fileExists, g, node, dir, [line]) == ProcessLine(cfg, fileExists, g, node, dir, line)
  {
    assert [line][..0] == [];
  }

  /** An edge into the empty graph. */
  lemma EdgeIntoEmpty(src: Node, dst: Node)
    ensures AddEdge(map[], src, dst) == map[src := {dst}]
  {
    var empty: Graph := map[];
    assert Succ(empty, src) + {dst} == {dst};
    assert AddEdge(empty, src, dst) == empty[src := {dst}];
  }

  /** Scanning `a/Foo.cpp` adds its one edge to the empty graph. */
  lemma FooScan()
    ensures ScanLines(ExampleConfig(IgnoreTest(None)), ExampleExists, map[], "a/Foo", "/p/a", FooFile.lines)
            == map["a/Foo" := {"a/Bar"}]
  {
    FooLineTarget();
    ScanOneLine(ExampleConfig(IgnoreTest(None)), ExampleExists, map[], "a/Foo", "/p/a", Statement('"', "Bar.h", '"'));
    EdgeIntoEmpty("a/Foo", "a/Bar");
  }

  /** The first file of `/p`. */
  lemma FooFileAdded()
    ensures AddFiles(ExampleConfig(IgnoreTest(None)), ExampleExists, map[], "/p", [FooFile]) == map["a/Foo" := {"a/Bar"}]
  {
    FooNode();
    FooScan();
    assert [FooFile][..0] == [];
  }

  /** The second file of `/p` has no lines and adds nothing. */
  lemma BarFileAdded(g: Graph)
    ensures AddFile(ExampleConfig(IgnoreTest(None)), ExampleExists, g, "/p", BarFile) == g
  {
    BarNode();
  }

  /** The graph of the example: the single edge `a/Foo -> a/Bar`. */
  lemma ExampleGraph()
    ensures AddInputs(ExampleConfig(IgnoreTest(None)), ExampleExists, map[], ExampleInputs) == map["a/Foo" := {"a/Bar"}]
  {
    var cfg := ExampleConfig(IgnoreTest(None));
    var g: Graph := map["a/Foo" := {"a/Bar"}];
    FooFileAdded();
    BarFileAdded(g);
    assert [FooFile, BarFile][..1] == [FooFile];
    assert AddFiles(cfg, ExampleExists, map[], "/p", [FooFile, BarFile]) == g;
    assert ExampleInputs[..0] == [];
    assert AddInputs(cfg, ExampleExists, map[], ExampleInputs[..0]) == map[];
  }

  /** The example's libraries are `Boost`, `ZLib` and `Qt`. */
  lemma ExampleLibraries(ignorePath: string -> bool)
    ensures Libraries(ExampleConfig(ignorePath)) == {"Boost", "ZLib", "Qt"}
  {
    var cfg := ExampleConfig(ignorePath);
    forall lib | lib in Libraries(cfg) ensures lib in {"Boost", "ZLib", "Qt"} {
      if lib in cfg.prefixedLibs.Values {
        var k :| k in cfg.prefixedLibs && cfg.prefixedLibs[k] == lib;
      } else {
        var k :| k in cfg.knownLibs && cfg.knownLibs[k] == lib;
      }
    }
    assert cfg.prefixedLibs["boost"] == "Boost";
    assert cfg.knownLibs["zlib.h"] == "ZLib";
    assert cfg.knownLibs["QtCore"] == "Qt";
  }

  /** Its output: no gray library (none is a node), no coloured node (no
      seeds), and exactly the edge line `"a/Foo" -> "a/Bar"`. */
  lemma ExampleOutput(doc: Document)
    requires Describes(doc, ExampleConfig(IgnoreTest(None)), map["a/Foo" := {"a/Bar"}])
    ensures doc == Document({}, map[], {("a/Foo", "a/Bar")})
  {
    var g: Graph := map["a/Foo" := {"a/Bar"}];
    assert NodesOf(g) == {"a/Foo", "a/Bar"};
    ExampleLibraries(IgnoreTest(None));
    assert doc.gray == {};
    assert forall n :: SeedColor(g, n, []).None?;
    assert doc.colored == map[];
    forall e | e in doc.edges ensures e == ("a/Foo", "a/Bar") {
      assert EmitsEdge(g, {}, e.0, e.1);
    }
    assert EmitsEdge(g, {}, "a/Foo", "a/Bar");
  }

  /** As written, the same tree with `FileIgnorePattern` absent gives no
      graph at all: every file is ignored. */
  lemma ExampleGraphAsWritten()
    ensures AddInputs(ExampleConfig(IgnoreTestAsWritten(None)), ExampleExists, map[], ExampleInputs) == map[]
  {
    UnsetPatternGivesEmptyGraph(ExampleConfig(IgnoreTestAsWritten(None)), ExampleExists, ExampleInputs);
  }
}
