/** The configuration every stage reads, as one immutable value, and the
    two library tables built from the parsed `[PrefixedHeaders]` and
    `[OtherKnownHeaders]` groups. */
module Settings {
  import opened Wrappers
  import opened Strings
  import opened Graphs
  import opened NodeNaming
  import opened Colors

  /** The program's settings.
      - `ignorePath`: whether `FileIgnorePattern` finds a match in a path;
      - `ignoredLibs`: `LibraryIgnoreList`;
      - `prefixedLibs`: first path segment to library name;
      - `knownLibs`: exact include text to library name;
      - `coloring`: the seeds with their colours, in iteration order. */
  datatype Config = Config(
    ignorePath: string -> bool,
    ignoredLibs: set<Node>,
    granularity: Granularity,
    prefixedLibs: map<string, Node>,
    knownLibs: map<string, Node>,
    coloring: seq<(Node, Rgb)>)

  /** The ignore test as the program builds it from `FileIgnorePattern`
      (`pattern`, `None` when the key is absent): an absent key gives the
      empty regular expression, which finds an (empty) match in every
      path, so every path is ignored. */
  function IgnoreTestAsWritten(pattern: Option<string -> bool>): (r: string -> bool)
    ensures pattern.None? ==> forall path :: r(path)
    ensures pattern.Some? ==> r == pattern.value
  {
    match pattern
    case None => (path: string) => true
    case Some(matches) => matches
  }

  /** The ignore test an absent `FileIgnorePattern` is evidently meant to
      give: one that ignores nothing. */
  function IgnoreTest(pattern: Option<string -> bool>): (r: string -> bool)
    ensures pattern.None? ==> forall path :: !r(path)
    ensures pattern.Some? ==> r == pattern.value
  {
    match pattern
    case None => (path: string) => false
    case Some(matches) => matches
  }

  /** The prefixed-library table after reading `entries` (key, value) in
      order: an empty value names the library after its prefix, and a
      later entry for a key replaces an earlier one. */
  function PrefixedLibs(entries: seq<(string, string)>): map<string, Node>
    decreases |entries|
  {
    if entries == [] then map[]
    else
      var (key, value) := entries[|entries| - 1];
      PrefixedLibs(entries[..|entries| - 1])[key := if value == "" then key else value]
  }

  /** The loop that fills the prefixed-library table. */
  method PrefixedTable(entries: seq<(string, string)>) returns (table: map<string, Node>)
    ensures table == PrefixedLibs(entries)
  {
    table := map[];
    for i := 0 to |entries|
      invariant table == PrefixedLibs(entries[..i])
    {
      assert entries[..i + 1][..i] == entries[..i];
      var (key, value) := entries[i];
      if value == "" {
        table := table[key := key];
      } else {
        table := table[key := value];
      }
    }
    assert entries[..|entries|] == entries;
  }

  /** The table's keys are exactly the keys read. */
  lemma {:induction false} PrefixedKeys(entries: seq<(string, string)>)
    ensures PrefixedLibs(entries).Keys == set i | 0 <= i < |entries| :: entries[i].0
    decreases |entries|
  {
    if entries != [] {
      var init := entries[..|entries| - 1];
      PrefixedKeys(init);
      assert forall i :: 0 <= i < |init| ==> init[i] == entries[i];
      assert (set i | 0 <= i < |entries| :: entries[i].0)
          == (set i | 0 <= i < |init| :: init[i].0) + {entries[|entries| - 1].0};
    }
  }

  /** A key read for the last time at `i` names the library given there,
      or itself when the value given there is empty. */
  lemma {:induction false} PrefixedLookup(entries: seq<(string, string)>, i: nat)
    requires i < |entries|
    requires forall j :: i < j < |entries| ==> entries[j].0 != entries[i].0
    ensures entries[i].0 in PrefixedLibs(entries)
    ensures PrefixedLibs(entries)[entries[i].0] == if entries[i].1 == "" then entries[i].0 else entries[i].1
    decreases |entries|
  {
    if i < |entries| - 1 {
      var init := entries[..|entries| - 1];
      assert init[i] == entries[i];
      PrefixedLookup(init, i);
    }
  }

  /** `name` registered for each header of `headers`, trimmed, in order. */
  function AddHeaders(table: map<string, Node>, name: Node, headers: seq<string>): map<string, Node>
    decreases |headers|
  {
    if headers == [] then table
    else AddHeaders(table, name, headers[..|headers| - 1])[Trim(headers[|headers| - 1]) := name]
  }

  /** The known-library table after reading the groups (library name, list
      of headers) in order; a header listed again later is re-registered. */
  function KnownLibs(groups: seq<(Node, seq<string>)>): map<string, Node>
    decreases |groups|
  {
    if groups == [] then map[]
    else
      var (name, headers) := groups[|groups| - 1];
      AddHeaders(KnownLibs(groups[..|groups| - 1]), name, headers)
  }

  /** The nested loop that fills the known-library table. */
  method KnownTable(groups: seq<(Node, seq<string>)>) returns (table: map<string, Node>)
    ensures table == KnownLibs(groups)
  {
    table := map[];
    for i := 0 to |groups|
      invariant table == KnownLibs(groups[..i])
    {
      assert groups[..i + 1][..i] == groups[..i];
      var (name, headers) := groups[i];
      ghost var before := table;
      for j := 0 to |headers|
        invariant table == AddHeaders(before, name, headers[..j])
      {
        assert headers[..j + 1][..j] == headers[..j];
        table := table[Trim(headers[j]) := name];
      }
      assert headers[..|headers|] == headers;
    }
    assert groups[..|groups|] == groups;
  }

  /** The trimmed forms of `headers`. */
  function Trimmed(headers: seq<string>): set<string> {
    set j | 0 <= j < |headers| :: Trim(headers[j])
  }

  /** One more header adds its trimmed form. */
  lemma TrimmedStep(headers: seq<string>)
    requires headers != []
    ensures Trimmed(headers) == Trimmed(headers[..|headers| - 1]) + {Trim(headers[|headers| - 1])}
  {
    var init := headers[..|headers| - 1];
    assert forall j :: 0 <= j < |init| ==> init[j] == headers[j];
  }

  /** Registering headers adds their trimmed forms to the keys. */
  lemma {:induction false} AddHeadersKeys(table: map<string, Node>, name: Node, headers: seq<string>)
    ensures AddHeaders(table, name, headers).Keys == table.Keys + Trimmed(headers)
    decreases |headers|
  {
    if headers != [] {
      AddHeadersKeys(table, name, headers[..|headers| - 1]);
      TrimmedStep(headers);
    }
  }

  /** Registering headers adds no value but `name`. */
  lemma {:induction false} AddHeadersValues(table: map<string, Node>, name: Node, headers: seq<string>)
    ensures AddHeaders(table, name, headers).Values <= table.Values + {name}
    decreases |headers|
  {
    if headers != [] {
      AddHeadersValues(table, name, headers[..|headers| - 1]);
    }
  }

  /** Registering headers overlays the table with every trimmed header
      mapped to `name`, whatever the table held for it before. */
  lemma {:induction false} AddHeadersOverlay(table: map<string, Node>, name: Node, headers: seq<string>)
    ensures forall k :: k in Trimmed(headers) ==> k in AddHeaders(table, name, headers) && AddHeaders(table, name, headers)[k] == name
    ensures forall k :: k in table && k !in Trimmed(headers) ==>
              k in AddHeaders(table, name, headers) && AddHeaders(table, name, headers)[k] == table[k]
    decreases |headers|
  {
    if headers != [] {
      AddHeadersOverlay(table, name, headers[..|headers| - 1]);
      TrimmedStep(headers);
    }
  }

  /** Each header of a group is registered, trimmed, under the group's name. */
  lemma AddHeadersLookup(table: map<string, Node>, name: Node, headers: seq<string>, h: string)
    requires h in headers
    ensures Trim(h) in AddHeaders(table, name, headers)
    ensures AddHeaders(table, name, headers)[Trim(h)] == name
  {
    AddHeadersOverlay(table, name, headers);
    var j :| 0 <= j < |headers| && headers[j] == h;
    assert Trim(h) in Trimmed(headers);
  }

  /** A header belongs to the library of the last group that lists it: a
      header of group `i` that no later group lists (after trimming) maps to
      group `i`'s name. */
  lemma {:induction false} KnownLookup(groups: seq<(Node, seq<string>)>, i: nat, h: string)
    requires i < |groups| && h in groups[i].1
    requires forall j :: i < j < |groups| ==> Trim(h) !in Trimmed(groups[j].1)
    ensures Trim(h) in KnownLibs(groups)
    ensures KnownLibs(groups)[Trim(h)] == groups[i].0
    decreases |groups|
  {
    var init := groups[..|groups| - 1];
    var (name, headers) := groups[|groups| - 1];
    if i == |groups| - 1 {
      AddHeadersLookup(KnownLibs(init), name, headers, h);
    } else {
      assert init[i] == groups[i];
      KnownLookup(init, i, h);
      AddHeadersOverlay(KnownLibs(init), name, headers);
    }
  }

  /** Every key of the known-library table is a trimmed header of some group. */
  lemma {:induction false} KnownKeys(groups: seq<(Node, seq<string>)>, key: string)
    requires key in KnownLibs(groups)
    ensures exists i :: 0 <= i < |groups| && key in Trimmed(groups[i].1)
    decreases |groups|
  {
    var init := groups[..|groups| - 1];
    var last := groups[|groups| - 1];
    AddHeadersKeys(KnownLibs(init), last.0, last.1);
    if key in KnownLibs(init) {
      KnownKeys(init, key);
      var i :| 0 <= i < |init| && key in Trimmed(init[i].1);
      assert init[i] == groups[i];
    } else {
      assert key in Trimmed(groups[|groups| - 1].1);
    }
  }

  /** Every table value is the name of some group. */
  lemma {:induction false} KnownValues(groups: seq<(Node, seq<string>)>)
    ensures KnownLibs(groups).Values <= set i | 0 <= i < |groups| :: groups[i].0
    decreases |groups|
  {
    if groups != [] {
      var init := groups[..|groups| - 1];
      KnownValues(init);
      AddHeadersValues(KnownLibs(init), groups[|groups| - 1].0, groups[|groups| - 1].1);
      assert forall i :: 0 <= i < |init| ==> init[i] == groups[i];
      assert (set i | 0 <= i < |init| :: init[i].0) <= (set i | 0 <= i < |groups| :: groups[i].0);
    }
  }
}
