/** Resolving the text of an include directive, seen from a source node,
    to the node it stands for. The heuristics are tried in a fixed order:
    standard library, prefixed library, sibling header, known library, and
    finally the path itself named like a source file. */
module IncludeResolution {
  import opened Strings
  import opened Graphs
  import opened NodeNaming
  import opened Settings

  /** The synthetic node for standard-library headers. */
  const StandardLibrary: Node := "c++"

  /** An include with neither `/` nor `.`, such as `<vector>`. */
  predicate IsStandardHeader(incl: string) {
    '/' !in incl && '.' !in incl
  }

  /** The text before the first `/`, or all of `s` when it has none. */
  function FirstSegment(s: string): (r: string)
    ensures '/' !in r
    ensures '/' in s ==> |r| < |s| && s[..|r|] == r && s[|r|] == '/'
    ensures '/' !in s ==> r == s
  {
    var i := IndexOf(s, '/');
    if i == -1 then s else s[..i]
  }

  /** The first segment of a path is the text before its first `/`. */
  lemma FirstSegmentOfPath(dir: string, rest: string)
    requires '/' !in dir
    ensures FirstSegment(dir + "/" + rest) == dir
  {
    var s := dir + "/" + rest;
    assert s[|dir|] == '/';
    assert s[..|dir|] == dir;
  }

  /** The include's first path segment names a prefixed library. */
  predicate IsPrefixedHeader(cfg: Config, incl: string) {
    '/' in incl && FirstSegment(incl) in cfg.prefixedLibs
  }

  /** The include names, without a `/`, a dotted file that exists in the
      directory of the including file. */
  predicate IsSiblingHeader(fileExists: string -> bool, dir: string, incl: string) {
    '/' !in incl && '.' in incl && fileExists(dir + "/" + incl)
  }

  /** The text before the last `.`. */
  function Stem(name: string): (r: string)
    requires '.' in name
    ensures |r| < |name| && name[..|r|] == r && name[|r|] == '.' && '.' !in name[|r| + 1..]
  {
    name[..LastIndexOf(name, '.')]
  }

  /** The stem of `stem.ext`, where `ext` holds no `.`, is `stem`. */
  lemma StemOf(stem: string, ext: string)
    requires '.' !in ext
    ensures Stem(stem + "." + ext) == stem
  {
    LastIndexOfJoin(stem, '.', ext);
    assert (stem + "." + ext)[..|stem|] == stem;
  }

  /** The node of a sibling header with stem `stem`: the source node itself
      when it ends with the stem (a file including its own header),
      otherwise the stem placed in the source node's directory. */
  function SiblingNode(srcNode: Node, stem: string): (r: Node)
    ensures EndsWith(srcNode, stem) ==> r == srcNode
    ensures !EndsWith(srcNode, stem) && '/' !in srcNode ==> r == stem
    ensures !EndsWith(srcNode, stem) && '/' in srcNode ==> r == ModuleOf(srcNode) + "/" + stem
  {
    if EndsWith(srcNode, stem) then srcNode
    else
      var lastSlash := LastIndexOf(srcNode, '/');
      if lastSlash == -1 then stem else srcNode[..lastSlash] + "/" + stem
  }

  /** An include whose first segment is a registered prefix resolves to
      that prefix's library, whatever follows it and whatever exists on
      disk. */
  lemma PrefixedResolves(cfg: Config, fileExists: string -> bool, srcNode: Node, dir: string, prefix: string, rest: string)
    requires '/' !in prefix && prefix in cfg.prefixedLibs
    ensures NodeFromInclude(cfg, fileExists, srcNode, dir, prefix + "/" + rest) == cfg.prefixedLibs[prefix]
  {
    var incl := prefix + "/" + rest;
    FirstSegmentOfPath(prefix, rest);
    assert incl[|prefix|] == '/';
    assert IsPrefixedHeader(cfg, incl);
  }

  /** `nodeFromInclude`: the node for `incl`, written in a file whose
      node is `srcNode` and which lies in directory `dir`. */
  function NodeFromInclude(cfg: Config, fileExists: string -> bool, srcNode: Node, dir: string, incl: string): (r: Node)
    ensures IsStandardHeader(incl) ==> r == StandardLibrary
    ensures IsPrefixedHeader(cfg, incl) ==> r == cfg.prefixedLibs[FirstSegment(incl)]
    ensures IsSiblingHeader(fileExists, dir, incl) ==> r == SiblingNode(srcNode, Stem(incl))
    ensures !IsStandardHeader(incl) && !IsPrefixedHeader(cfg, incl)
            && !IsSiblingHeader(fileExists, dir, incl) && incl in cfg.knownLibs
            ==> r == cfg.knownLibs[incl]
    ensures !IsStandardHeader(incl) && !IsPrefixedHeader(cfg, incl)
            && !IsSiblingHeader(fileExists, dir, incl) && incl !in cfg.knownLibs
            ==> r == NodeFromSourceFile(cfg.ignorePath, cfg.granularity, incl)
  {
    if LastIndexOfAny(incl, {'.', '/'}) == -1 then
      assert '.' !in incl && '/' !in incl by {
        assert forall k :: 0 <= k < |incl| ==> incl[k] != '.' && incl[k] != '/';
      }
      StandardLibrary
    else
      var firstSlash := IndexOf(incl, '/');
      if firstSlash != -1 && incl[..firstSlash] in cfg.prefixedLibs then
        cfg.prefixedLibs[incl[..firstSlash]]
      else if firstSlash == -1 && fileExists(dir + "/" + incl) then
        var dotIndex := LastIndexOfAny(incl, {'.', '/'});
        assert dotIndex == LastIndexOf(incl, '.');
        var includeNode := incl[..dotIndex];
        if EndsWith(srcNode, includeNode) then srcNode
        else
          var lastSlash := LastIndexOf(srcNode, '/');
          if lastSlash == -1 then includeNode else srcNode[..lastSlash] + "/" + includeNode
      else if incl in cfg.knownLibs then
        cfg.knownLibs[incl]
      else
        NodeFromSourceFile(cfg.ignorePath, cfg.granularity, incl)
  }

  /** With a non-empty source node and non-empty library names, only the
      final rule can resolve an include to the empty node, and it does so
      exactly when the include text, named like a source file, is empty. */
  lemma EmptyOnlyFromFallback(cfg: Config, fileExists: string -> bool, srcNode: Node, dir: string, incl: string)
    requires srcNode != ""
    requires "" !in cfg.prefixedLibs.Values && "" !in cfg.knownLibs.Values
    ensures NodeFromInclude(cfg, fileExists, srcNode, dir, incl) == ""
            <==> (&& !IsStandardHeader(incl) && !IsPrefixedHeader(cfg, incl)
                  && !IsSiblingHeader(fileExists, dir, incl) && incl !in cfg.knownLibs
                  && NodeFromSourceFile(cfg.ignorePath, cfg.granularity, incl) == "")
  {
    var r := NodeFromInclude(cfg, fileExists, srcNode, dir, incl);
    if IsPrefixedHeader(cfg, incl) {
      assert r in cfg.prefixedLibs.Values;
    } else if IsSiblingHeader(fileExists, dir, incl) {
      var stem := Stem(incl);
      assert r == SiblingNode(srcNode, stem);
      if stem == "" {
        assert EndsWith(srcNode, stem);
      }
    } else if !IsStandardHeader(incl) && incl in cfg.knownLibs {
      assert r in cfg.knownLibs.Values;
    }
  }
}
