/** Mapping a source path, relative to its input directory, to the graph
    node that stands for it at the configured granularity. */
module NodeNaming {
  import opened Strings
  import opened Graphs

  /** How far nodes are collapsed, finest first. */
  datatype Granularity = Classes | Modules | TopLevelModules

  /** The enumerator's integer value. */
  function Level(g: Granularity): (r: nat)
    ensures r <= 2
  {
    match g
    case Classes => 0
    case Modules => 1
    case TopLevelModules => 2
  }

  /** The `Granularity` setting read as an integer and bounded to the
      finest and coarsest levels. */
  function GranularityFromSetting(v: int): (g: Granularity)
    ensures Level(g) == if v < 0 then 0 else if v > 2 then 2 else v
  {
    if v <= 0 then Classes else if v == 1 then Modules else TopLevelModules
  }

  /** Bounding is exact on values that are already levels. */
  lemma SettingRoundTrip(g: Granularity)
    ensures GranularityFromSetting(Level(g)) == g
  {
  }

  /** The file-name part of a path: the text after its last `/`. */
  function FileName(path: string): (r: string)
    ensures '/' !in r && EndsWith(path, r)
    ensures |r| < |path| ==> path[|path| - |r| - 1] == '/'
    ensures '/' !in path ==> r == path
  {
    path[LastIndexOf(path, '/') + 1..]
  }

  /** `QFileInfo::suffix`: the text after the last `.` of the file name,
      or the empty string when the file name has no `.`. */
  function Suffix(path: string): (r: string)
    ensures '.' !in r && '/' !in r
    ensures EndsWith(FileName(path), r)
    ensures '.' in FileName(path) ==> FileName(path)[|FileName(path)| - |r| - 1] == '.'
    ensures '.' !in FileName(path) ==> r == ""
  {
    var name := FileName(path);
    var dot := LastIndexOf(name, '.');
    if dot == -1 then "" else name[dot + 1..]
  }

  /** `path.replace("." + suffix, "")`: EVERY occurrence of the dotted
      suffix is deleted, not only the trailing one; a file name without a
      `.` has an empty suffix, and then every `.` of the path is deleted. */
  function StripExtension(path: string): (r: string)
    ensures |r| <= |path|
  {
    RemoveAll(path, "." + Suffix(path))
  }

  /** The part of `s` before its last `/`, or `s` itself when it has none. */
  function ModuleOf(s: string): (r: string)
    ensures '/' !in s ==> r == s
    ensures '/' in s ==> |r| < |s| && r == s[..|r|] && s[|r|] == '/' && '/' !in s[|r| + 1..]
  {
    var i := LastIndexOf(s, '/');
    if i == -1 then s else s[..i]
  }

  /** `nodeFromSourceFile`. An ignored path yields the empty node; otherwise
      the extension is stripped, and at the two module granularities the
      result is cut before its last `/`. The two module granularities are
      not told apart. */
  function NodeFromSourceFile(ignore: string -> bool, granularity: Granularity, path: string): (r: Node)
    ensures ignore(path) ==> r == ""
    ensures !ignore(path) && granularity == Classes ==> r == StripExtension(path)
    ensures !ignore(path) && granularity != Classes ==> r == ModuleOf(StripExtension(path))
  {
    if ignore(path) then ""
    else
      var result := StripExtension(path);
      if granularity == Classes then result
      else
        var i := LastIndexOf(result, '/');
        var result' := if i != -1 then result[..i] else result;
        if granularity == Modules then result'
        else result'
  }

  /** MODULES and TOPLEVELMODULES name every path alike. */
  lemma ModuleLevelsAgree(ignore: string -> bool, path: string)
    ensures NodeFromSourceFile(ignore, Modules, path) == NodeFromSourceFile(ignore, TopLevelModules, path)
  {
  }

  /** The last occurrence of `c` in `s + [c] + t`, when `t` lacks `c`,
      is the one between them. */
  lemma LastIndexOfJoin(s: string, c: char, t: string)
    requires c !in t
    ensures LastIndexOf(s + [c] + t, c) == |s|
  {
    var u := s + [c] + t;
    var i := LastIndexOf(u, c);
    assert u[|s|] == c;
    assert u[|s| + 1..] == t;
  }

  /** The module of `dir/name`, where `name` holds no `/`, is `dir`. */
  lemma ModuleOfPath(dir: string, name: string)
    requires '/' !in name
    ensures ModuleOf(dir + "/" + name) == dir
  {
    LastIndexOfJoin(dir, '/', name);
    assert (dir + "/" + name)[..|dir|] == dir;
  }

  /** A path ending in `.ext`, where `ext` holds no `.` and no `/`, has
      suffix `ext`. */
  lemma SuffixOfDotted(stem: string, ext: string)
    requires '.' !in ext && '/' !in ext
    ensures Suffix(stem + "." + ext) == ext
  {
    var path := stem + "." + ext;
    var slash := LastIndexOf(path, '/');
    if slash != -1 {
      assert path[slash] == '/';
      assert slash < |stem|;
      var head := stem[slash + 1..];
      assert path[slash + 1..] == head + "." + ext;
      LastIndexOfJoin(head, '.', ext);
    } else {
      LastIndexOfJoin(stem, '.', ext);
    }
  }

  /** A pattern whose first character is missing from `stem` occurs in
      `stem + rest` at no position inside `stem`. */
  lemma NotInside(stem: string, pat: string, rest: string)
    requires pat != [] && pat[0] !in stem
    ensures forall i :: 0 <= i < |stem| ==> !OccursAt(stem + rest, pat, i)
  {
    var path := stem + rest;
    forall i | 0 <= i < |stem|
      ensures !OccursAt(path, pat, i)
    {
      if i + |pat| <= |path| {
        assert path[i..i + |pat|][0] == stem[i];
      }
    }
  }

  /** A path ending in `.ext` is stripped of every `.ext` it holds. */
  lemma StripDotted(stem: string, ext: string)
    requires '.' !in ext && '/' !in ext
    ensures StripExtension(stem + "." + ext) == RemoveAll(stem + "." + ext, "." + ext)
  {
    SuffixOfDotted(stem, ext);
  }

  /** A path whose only `.` opens its extension loses exactly that
      extension. */
  lemma StripSingleExtension(stem: string, ext: string)
    requires '.' !in stem && '.' !in ext && '/' !in ext
    ensures StripExtension(stem + "." + ext) == stem
  {
    var pat := "." + ext;
    StripDotted(stem, ext);
    SingleLayout(stem, ".", ext);
    assert pat[0] == '.';
    RemoveOnce(stem, pat);
  }

  /** How `stem.ext` splits around its one occurrence of `.ext`. */
  lemma SingleLayout(stem: string, dot: string, ext: string)
    ensures stem + dot + ext == stem + (dot + ext)
  {
  }

  /** A lone trailing occurrence goes when the pattern's first character is
      not in `stem`. */
  lemma RemoveOnce(stem: string, pat: string)
    requires pat != [] && pat[0] !in stem
    ensures RemoveAll(stem + pat, pat) == stem
  {
    NotInside(stem, pat, pat);
    RemoveAllTrailing(stem, pat);
  }

  /** The extension is deleted everywhere, not only at the end: in
      `a.ext/b.ext`, where `a` and `b` hold no `.`, both `.ext` go. */
  lemma StripRepeatedExtension(a: string, b: string, ext: string)
    requires '.' !in a && '.' !in b && '.' !in ext && '/' !in ext
    ensures StripExtension(a + "." + ext + "/" + b + "." + ext) == a + "/" + b
  {
    var pat := "." + ext;
    var tail := "/" + b;
    var stem := a + "." + ext + "/" + b;
    StripDotted(stem, ext);
    RepeatedLayout(a, ".", ext, "/", b);
    assert pat[0] == '.';
    assert '.' !in tail by { assert tail == ['/'] + b; }
    RemoveTwice(a, tail, pat);
  }

  /** How `a.ext/b.ext` splits around its two occurrences of `.ext`. */
  lemma RepeatedLayout(a: string, dot: string, ext: string, slash: string, b: string)
    ensures a + dot + ext + slash + b + dot + ext
         == a + ((dot + ext) + ((slash + b) + (dot + ext)))
    ensures a + dot + ext + slash + b + dot + ext == (a + dot + ext + slash + b) + dot + ext
  {
  }
  /** Both occurrences go from `a + pat + tail + pat` when the first
      character of `pat` is in neither `a` nor `tail`. */
  lemma RemoveTwice(a: string, tail: string, pat: string)
    requires pat != [] && pat[0] !in a && pat[0] !in tail
    ensures RemoveAll(a + (pat + (tail + pat)), pat) == a + tail
  {
    NotInside(a, pat, pat + (tail + pat));
    RemoveAllAt(a, pat, tail + pat);
    NotInside(tail, pat, pat);
    RemoveAllTrailing(tail, pat);
  }
}
