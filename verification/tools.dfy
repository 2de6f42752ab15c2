/** The tool registry: tools are registered under an id (explicit, declared by
    the tool, or derived from its name), and `get_all_tools` adds the built-in
    tools, with caching switched off, before handing out a copy. */
module Tools {
  import opened Wrappers
  import opened Seqs
  import opened Naming

  /** What a tool's cache function answers: the tool's own function, or the
      replacement `lambda args, result: False` that never caches. */
  datatype CacheFunction = OwnCache | NeverCache

  /** The parts of a tool the registry looks at. `id` is the tool's `id`
      attribute when it has one. */
  datatype Tool = Tool(name: string, id: Option<string>, cache: CacheFunction)

  /** What `register_tool` is given: a tool class, which the registry
      instantiates (`made` is that instance; `classId` the class's own `id`
      attribute, if any), or an instance that is already built. */
  datatype ToolSource =
    | ToolClass(classId: Option<string>, made: Tool)
    | ToolInstance(tool: Tool)

  type ToolRegistry = map<string, Tool>

  datatype Registered = Registered(registry: ToolRegistry, toolId: string)

  /** The tool that ends up in the registry. */
  function Instantiate(source: ToolSource): Tool {
    match source
    case ToolClass(_, made) => made
    case ToolInstance(tool) => tool
  }

  /** `hasattr(tool_class_or_instance, 'id')`: a class's attribute, or, for an
      instance, the instance's own. */
  function SourceId(source: ToolSource): Option<string> {
    match source
    case ToolClass(classId, _) => classId
    case ToolInstance(tool) => tool.id
  }

  /** The id `register_tool` uses: the explicit one, else the source's `id`,
      else the instance's `id`, else the snake-cased tool name. */
  function ResolveToolId(source: ToolSource, toolId: Option<string>): (id: string)
    ensures toolId.Some? ==> id == toolId.value
    ensures toolId.None? && SourceId(source).Some? ==> id == SourceId(source).value
    ensures toolId.None? && SourceId(source).None? && Instantiate(source).id.Some? ==>
              id == Instantiate(source).id.value
    ensures toolId.None? && SourceId(source).None? && Instantiate(source).id.None? ==>
              id == ToSnakeCase(Instantiate(source).name)
  {
    if toolId.Some? then toolId.value
    else if SourceId(source).Some? then SourceId(source).value
    else if Instantiate(source).id.Some? then Instantiate(source).id.value
    else ToSnakeCase(Instantiate(source).name)
  }

  /** The tool as stored: with `set_no_cache` its cache function never caches. */
  function Prepare(source: ToolSource, setNoCache: bool): (t: Tool)
    ensures t.name == Instantiate(source).name && t.id == Instantiate(source).id
    ensures t.cache == if setNoCache then NeverCache else Instantiate(source).cache
  {
    var tool := Instantiate(source);
    if setNoCache then tool.(cache := NeverCache) else tool
  }

  /** `register_tool`: stores the prepared tool under the resolved id, replacing
      whatever that id held, and returns the id. */
  function RegisterTool(reg: ToolRegistry, source: ToolSource, toolId: Option<string>, setNoCache: bool): (r: Registered)
    ensures r.toolId == ResolveToolId(source, toolId)
    ensures r.registry.Keys == reg.Keys + {r.toolId}
    ensures r.registry[r.toolId] == Prepare(source, setNoCache)
    ensures forall k :: k in reg && k != r.toolId ==> r.registry[k] == reg[k]
  {
    var id := ResolveToolId(source, toolId);
    Registered(reg[id := Prepare(source, setNoCache)], id)
  }

  /** The id a source is registered under when no explicit id is given. */
  function DefaultId(source: ToolSource): string {
    ResolveToolId(source, None)
  }

  /** The ids a sequence of sources is registered under. */
  function DefaultIds(sources: seq<ToolSource>): set<string> {
    if |sources| == 0 then {}
    else DefaultIds(sources[..|sources| - 1]) + {DefaultId(sources[|sources| - 1])}
  }

  /** Every source's id is among the default ids. */
  lemma {:induction false} DefaultIdListed(sources: seq<ToolSource>, i: nat)
    requires i < |sources|
    ensures DefaultId(sources[i]) in DefaultIds(sources)
  {
    var n := |sources| - 1;
    if i < n {
      var init := sources[..n];
      DefaultIdListed(init, i);
      assert init[i] == sources[i];
    }
  }

  /** Every default id is the id of some source. */
  lemma {:induction false} DefaultIdHasSource(sources: seq<ToolSource>, k: string)
    requires k in DefaultIds(sources)
    ensures exists i :: 0 <= i < |sources| && DefaultId(sources[i]) == k
  {
    var n := |sources| - 1;
    var init := sources[..n];
    if k != DefaultId(sources[n]) {
      assert k in DefaultIds(init);
      DefaultIdHasSource(init, k);
      var i :| 0 <= i < |init| && DefaultId(init[i]) == k;
      assert init[i] == sources[i];
    }
  }

  /** An id is among the default ids exactly when some source resolves to it. */
  lemma DefaultIdsMembers(sources: seq<ToolSource>)
    ensures forall i :: 0 <= i < |sources| ==> DefaultId(sources[i]) in DefaultIds(sources)
    ensures forall k :: k in DefaultIds(sources) ==> exists i :: 0 <= i < |sources| && DefaultId(sources[i]) == k
  {
    forall i | 0 <= i < |sources| ensures DefaultId(sources[i]) in DefaultIds(sources) {
      DefaultIdListed(sources, i);
    }
    forall k | k in DefaultIds(sources)
      ensures exists i :: 0 <= i < |sources| && DefaultId(sources[i]) == k
    {
      DefaultIdHasSource(sources, k);
    }
  }

  /** Registering `sources` one after the other, without explicit ids. */
  function RegisterAll(reg: ToolRegistry, sources: seq<ToolSource>, setNoCache: bool): (r: ToolRegistry)
    ensures r.Keys == reg.Keys + DefaultIds(sources)
  {
    if |sources| == 0 then reg
    else RegisterTool(RegisterAll(reg, sources[..|sources| - 1], setNoCache), sources[|sources| - 1], None, setNoCache).registry
  }

  /** An id holds the last source registered under it. */
  lemma {:induction false} RegisterAllLastWins(reg: ToolRegistry, sources: seq<ToolSource>, setNoCache: bool, i: nat)
    requires i < |sources|
    requires forall j :: i < j < |sources| ==> DefaultId(sources[j]) != DefaultId(sources[i])
    ensures var r := RegisterAll(reg, sources, setNoCache);
            DefaultId(sources[i]) in r && r[DefaultId(sources[i])] == Prepare(sources[i], setNoCache)
  {
    var init := sources[..|sources| - 1];
    if i < |sources| - 1 {
      RegisterAllLastWins(reg, init, setNoCache, i);
    }
  }

  /** An id no source uses keeps the tool it had. */
  lemma {:induction false} RegisterAllKeepsOthers(reg: ToolRegistry, sources: seq<ToolSource>, setNoCache: bool, k: string)
    requires k in reg
    requires forall s :: s in sources ==> DefaultId(s) != k
    ensures var r := RegisterAll(reg, sources, setNoCache);
            k in r && r[k] == reg[k]
  {
    if |sources| > 0 {
      var init := sources[..|sources| - 1];
      assert forall s :: s in init ==> s in sources;
      RegisterAllKeepsOthers(reg, init, setNoCache, k);
      assert sources[|sources| - 1] in sources;
    }
  }

  /** The built-in tools, in registration order. Each declares its id as a
      field default, so the id comes from the instance. */
  const BuiltinTools: seq<ToolSource> := [
    ToolClass(None, Tool("Read a File", Some("read_file"), OwnCache)),
    ToolClass(None, Tool("Read Some Files", Some("batch_read_files"), OwnCache)),
    ToolClass(None, Tool("Update a File", Some("write_file"), OwnCache)),
    ToolClass(None, Tool("List Existing Files", Some("list_files"), OwnCache)),
    ToolClass(None, Tool("save_sound", Some("save_sound"), OwnCache)),
    ToolClass(None, Tool("search_sound", Some("search_sound"), OwnCache)),
    ToolClass(None, Tool("Read HTML examples", Some("read_examples_html"), OwnCache))
  ]

  const BuiltinIds: seq<string> := [
    "read_file", "batch_read_files", "write_file", "list_files",
    "save_sound", "search_sound", "read_examples_html"
  ]

  /** What `get_all_tools` leaves behind: the global registry after it ran, and
      the copy it returned. */
  datatype AllTools = AllTools(registry: ToolRegistry, snapshot: ToolRegistry)

  /** `get_all_tools`: (re-)registers every built-in tool with caching off and
      returns a copy of the whole registry. */
  function GetAllTools(reg: ToolRegistry): (r: AllTools)
    ensures r.snapshot == r.registry
    ensures r.registry.Keys == reg.Keys + Elems(BuiltinIds)
  {
    BuiltinIdsMatch();
    var after := RegisterAll(reg, BuiltinTools, true);
    AllTools(after, after)
  }

  // ---------------------------------------------------------------------
  // Properties

  /** A source that declares `id` on the instance it makes. */
  predicate DeclaresId(source: ToolSource, id: string) {
    source.ToolClass? && source.classId.None? && source.made.id == Some(id)
  }

  lemma BuiltinTable()
    ensures |BuiltinTools| == |BuiltinIds| == 7
    ensures forall i :: 0 <= i < |BuiltinTools| ==> DeclaresId(BuiltinTools[i], BuiltinIds[i])
  {
  }

  /** Sources that declare their ids are registered under exactly those ids. */
  lemma {:induction false} DeclaredIds(sources: seq<ToolSource>, ids: seq<string>)
    requires |sources| == |ids|
    requires forall i :: 0 <= i < |sources| ==> DeclaresId(sources[i], ids[i])
    ensures forall i :: 0 <= i < |sources| ==> DefaultId(sources[i]) == ids[i]
    ensures DefaultIds(sources) == Elems(ids)
  {
    var got := DefaultIds(sources);
    DefaultIdsMembers(sources);
    forall x | x in got ensures x in Elems(ids) {
      var i :| 0 <= i < |sources| && DefaultId(sources[i]) == x;
    }
    forall x | x in Elems(ids) ensures x in got {
      var i :| 0 <= i < |ids| && ids[i] == x;
      assert DefaultId(sources[i]) == x;
    }
  }

  lemma BuiltinIdsMatch()
    ensures |BuiltinTools| == |BuiltinIds| == 7
    ensures forall i :: 0 <= i < |BuiltinTools| ==> DefaultId(BuiltinTools[i]) == BuiltinIds[i]
    ensures DefaultIds(BuiltinTools) == Elems(BuiltinIds)
  {
    BuiltinTable();
    DeclaredIds(BuiltinTools, BuiltinIds);
  }

  lemma BuiltinIdsDistinct()
    ensures Distinct(BuiltinIds)
  {
  }

  /** Registering sources with distinct declared ids stores each under its id
      and leaves every other id alone. */
  lemma RegisterDeclared(reg: ToolRegistry, sources: seq<ToolSource>, ids: seq<string>, setNoCache: bool)
    requires |sources| == |ids| && Distinct(ids)
    requires forall i :: 0 <= i < |sources| ==> DeclaresId(sources[i], ids[i])
    ensures var r := RegisterAll(reg, sources, setNoCache);
            (forall i :: 0 <= i < |ids| ==> ids[i] in r && r[ids[i]] == Prepare(sources[i], setNoCache)) &&
            (forall k :: k in reg && k !in ids ==> k in r && r[k] == reg[k])
  {
    DeclaredIds(sources, ids);
    var r := RegisterAll(reg, sources, setNoCache);
    forall i | 0 <= i < |ids|
      ensures ids[i] in r && r[ids[i]] == Prepare(sources[i], setNoCache)
    {
      RegisterAllLastWins(reg, sources, setNoCache, i);
    }
    forall k | k in reg && k !in ids
      ensures k in r && r[k] == reg[k]
    {
      forall s | s in sources ensures DefaultId(s) != k {
        var i :| 0 <= i < |sources| && sources[i] == s;
      }
      RegisterAllKeepsOthers(reg, sources, setNoCache, k);
    }
  }

  lemma RegisterDeclaredIdempotent(reg: ToolRegistry, sources: seq<ToolSource>, ids: seq<string>, setNoCache: bool)
    requires |sources| == |ids| && Distinct(ids)
    requires forall i :: 0 <= i < |sources| ==> DeclaresId(sources[i], ids[i])
    ensures var once := RegisterAll(reg, sources, setNoCache);
            RegisterAll(once, sources, setNoCache) == once
  {
    var once := RegisterAll(reg, sources, setNoCache);
    var twice := RegisterAll(once, sources, setNoCache);
    RegisterDeclared(reg, sources, ids, setNoCache);
    RegisterDeclared(once, sources, ids, setNoCache);
    DeclaredIds(sources, ids);
    assert twice.Keys == once.Keys;
    forall k | k in once ensures twice[k] == once[k] {
      if k in ids {
        var i :| 0 <= i < |ids| && ids[i] == k;
        assert twice[ids[i]] == Prepare(sources[i], setNoCache) == once[ids[i]];
      } else {
        assert k in twice && twice[k] == once[k];
      }
    }
    assert twice == once;
  }

  /** Every built-in is listed under its id with caching switched off, and a
      user tool under any other id is handed out unchanged. */
  lemma GetAllToolsContents(reg: ToolRegistry)
    ensures var r := GetAllTools(reg);
            (forall i :: 0 <= i < |BuiltinIds| ==>
               BuiltinIds[i] in r.snapshot &&
               r.snapshot[BuiltinIds[i]] == Instantiate(BuiltinTools[i]).(cache := NeverCache)) &&
            (forall k :: k in reg && k !in BuiltinIds ==> k in r.snapshot && r.snapshot[k] == reg[k])
  {
    BuiltinTable();
    BuiltinIdsDistinct();
    RegisterDeclared(reg, BuiltinTools, BuiltinIds, true);
  }

  /** Calling `get_all_tools` again changes nothing: the built-ins are already
      there, uncached. */
  lemma GetAllToolsIdempotent(reg: ToolRegistry)
    ensures GetAllTools(GetAllTools(reg).registry) == GetAllTools(reg)
  {
    BuiltinTable();
    BuiltinIdsDistinct();
    RegisterDeclaredIdempotent(reg, BuiltinTools, BuiltinIds, true);
  }

  /** A derived id (no id anywhere) is the tool's name in snake case, so it holds
      no upper-case letter: a tool named `CamelCaseToolName` gets `camel_case_tool_name`. */
  lemma DerivedIdIsSnakeCase(reg: ToolRegistry, tool: Tool, setNoCache: bool)
    requires tool.id.None?
    ensures var r := RegisterTool(reg, ToolInstance(tool), None, setNoCache);
            r.toolId == ToSnakeCase(tool.name) &&
            forall i :: 0 <= i < |r.toolId| ==> !IsUpper(r.toolId[i])
  {
    SnakeCaseIsLower(tool.name);
  }

  /** Registering the same source twice under the same id is registering it once. */
  lemma RegisterToolIdempotent(reg: ToolRegistry, source: ToolSource, toolId: Option<string>, setNoCache: bool)
    ensures var once := RegisterTool(reg, source, toolId, setNoCache);
            RegisterTool(once.registry, source, toolId, setNoCache) == once
  {
  }

  /** Registrations that resolve to different ids commute, whether the ids are
      explicit or not. */
  lemma RegisterToolCommutes(reg: ToolRegistry, a: ToolSource, idA: Option<string>,
                             b: ToolSource, idB: Option<string>, setNoCache: bool)
    requires ResolveToolId(a, idA) != ResolveToolId(b, idB)
    ensures RegisterTool(RegisterTool(reg, a, idA, setNoCache).registry, b, idB, setNoCache).registry ==
            RegisterTool(RegisterTool(reg, b, idB, setNoCache).registry, a, idA, setNoCache).registry
  {
  }
}
