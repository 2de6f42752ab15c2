# Techies core, modelled in Dafny

Techies runs crews of LLM agents configured from YAML files. Under the CLI and
the crewai wrappers sit a few small pieces of pure logic, and this project
models them:

- **Graph utilities** (`techies/utils.py`).
  - `topology_sort_partial` is a depth-first search from a start vertex. It
    keeps an "on the stack" set to detect cycles, collects vertices in
    post-order and returns that list reversed.
  - `is_topology_ordered` checks a sequence against `(from, to)` edges.
  - Modules `TopologySort`, `SortProperties`, `TopologyOrder` and `GraphLaws`.
- **Name normalisation** (`to_snake_case`). `techies/tools.py` and
  `techies/callbacks.py` each hold an identical copy of it, so it is modelled
  once, in module `Naming`.
- **Tool registry** (`techies/tools.py`, module `Tools`).
  - `register_tool` resolves an id and then stores the tool under it. Its
    docstring (`techies/tools.py:25-27`) says a missing id falls back to the
    class name, but the code uses the snake-cased `tool.name`
    (`techies/tools.py:50`); the model follows the code.
  - `get_all_tools` registers the seven built-in tools with caching off and
    returns a copy of the registry.
- **Callback registry** (`techies/callbacks.py`, module `Callbacks`).
  - `register_callback` checks that the callback takes exactly one parameter,
    resolves its id and stores it.
  - `get_all_callbacks` returns a copy.
- **Game specifications** (`techies/game_specs.py`, module `GameSpecs`).
  `game_specs(key)` looks a description up and collapses its whitespace with
  `" ".join(text.split())`.
- **Configuration schemas** (`techies/config_schema.py`).
  - The agent, task and crew schemas are held as data (module `ConfigSchema`).
  - They are interpreted by a conformance predicate for the JSON Schema
    draft-07 keywords they use (modules `Json` and `JsonSchema`).
  - Each schema is proved to accept exactly the entries described by a
    field-by-field reference predicate.

Further modules and their roles:

- `Wrappers` provides `Option` and `Result`. The errors the core raises on
  purpose are `Failure` values in the model: the `ValueError`s for an unknown
  start vertex and a cycle (`techies/utils.py:19-39`), the `ValueError` for a
  callback with the wrong number of parameters (`techies/callbacks.py:22-23`),
  and the `KeyError` of a missing game key (`techies/game_specs.py:2`).
- `Seqs` holds sequence helpers.
- The registries are immutable maps. A registry operation takes the old map and
  returns the new one. Because maps are values, a "deep copy" is the map itself,
  and nothing done to a copy can reach the registry.

The docstring of `topology_sort_partial` (`techies/utils.py:13`) calls its
result "topologically sorted". The output passes `is_topology_ordered` on the
same edges whenever every edge source is one of the listed vertices
(`GraphLaws.SortOutputIsOrdered`). When some source is not listed it can fail:
such an edge is dropped from the adjacency (`techies/utils.py:23-26`), so an
unlisted source that is reached as a leaf is not kept before its target.
`GraphLaws.UnlistedSourceBreaksOrder` exhibits an input where it fails.

## Model

| member | source | states |
|---|---|---|
| TopologySort.BuildAdjacency | techies/utils.py:23-26 | Exactly the listed vertices get an adjacency list. A listed vertex's list holds the targets of its edges in edge order. Edges from unlisted sources are dropped. |
| TopologySort.TopologySortPartial | techies/utils.py:19-59 | A start vertex that is not listed fails with NotFound. A successful result is non-empty and begins with the start vertex. |
| SortProperties.SortErrors | techies/utils.py:19-39 | The sort returns NotFound exactly when the start is not listed. Any other failure is CycleDetected, and it carries a path from the start along adjacency edges whose last vertex already occurs earlier on the path. |
| SortProperties.SortListsReachableOnce | techies/utils.py:41-59 | A successful result has no repeated vertex and contains exactly the vertices reachable from the start in the adjacency. This includes unlisted edge targets, which are emitted as leaves. |
| SortProperties.SortClosedUnderEdges | techies/utils.py:47-48 | In a successful result, every edge whose source is a listed result vertex has its target in the result too. |
| SortProperties.SortOrdersEdges | techies/utils.py:47-59 | In a successful result, for every edge between two result vertices whose source is listed, the source comes strictly before the target. |
| SortProperties.SortFailsIffCycle | techies/utils.py:36-53 | When the start is listed, the sort fails exactly when some path from the start repeats a vertex. Both directions are proved. |
| SortProperties.SelfLoopFails | techies/utils.py:36-39 | A listed vertex with an edge to itself that is reachable from the start makes the sort fail with CycleDetected. |
| SortProperties.ReversedWalk | techies/utils.py:50-59 | Reading a finished post-order back to front puts every vertex before its successors. It also leaves no successor out. |
| TopologyOrder.Positions | techies/utils.py:76 | The position map has one key per vertex of the sequence. Each key maps to the index of that vertex's last occurrence. |
| TopologyOrder.IsTopologyOrdered | techies/utils.py:61-88 | The check returns true exactly when every edge is respected: either an endpoint is absent, or some occurrence of the target comes after every occurrence of the source. It is true for an empty sequence and for an empty edge list. |
| TopologyOrder.LastPositionsMeaning | techies/utils.py:76-86 | When both endpoints are present, comparing last positions is the same as asking for an occurrence of the target after every occurrence of the source. |
| TopologyOrder.OrderedWhenDistinct | techies/utils.py:79-88 | For a sequence without repeats, the check holds exactly when every edge between two of its elements goes from a smaller index to a larger one. |
| GraphLaws.SortOutputIsOrdered | techies/utils.py:23-88 | If every edge source is a listed vertex, a successful sort result passes the order check on the same edges. |
| GraphLaws.UnlistedSourceBreaksOrder | techies/utils.py:23-86 | Take vertices [A, B] and edges (A,X), (A,B), (X,B). The sort returns [A, B, X], and the order check rejects that result. |
| Naming.ToLower | techies/tools.py:22 | The lower-cased character is never an ASCII capital. An ASCII capital's code point goes up by 32, to its lower-case letter. Every other character is unchanged. |
| Naming.SnakeCaseIsLower | techies/tools.py:21-22 | The result contains no ASCII upper-case letter. |
| Naming.SnakeCaseLength | techies/tools.py:21-22 | The result is one character longer for every upper-case letter after index 0. |
| Naming.SnakeCaseKeepsLowerNames | techies/tools.py:21-22 | A name without upper-case letters comes back unchanged. |
| Naming.SnakeCaseIdempotent | techies/tools.py:18-22 | Converting a converted name changes nothing. |
| Naming.SnakeCaseOnlyInsertsUnderscores | techies/tools.py:21-22 | Deleting every `_` from the result gives the lower-cased input with its own `_` deleted, so only underscores are added. |
| Naming.SnakeCaseSplitsAtCapital | techies/tools.py:21-22 | When the first part is non-empty and the second part starts with a capital, the name `a + b` converts to the conversion of `a`, then `_`, then the conversion of `b`. |
| Naming.SnakeCaseReadFileToolExample | techies/tools.py:19-20 | The name made of the words `Read`, `File` and `Tool` becomes `read_file_tool`. |
| Naming.SnakeCaseFormatOutputExample | techies/callbacks.py:9-13 | The name made of the words `Format` and `Output` becomes `format_output`. |
| Tools.ResolveToolId | techies/tools.py:44-50 | An explicit id wins. Otherwise the source's own `id` is used, then the instance's `id`, then the snake-cased tool name. |
| Tools.Prepare | techies/tools.py:30-42 | The stored tool keeps its name and id. With `set_no_cache` its cache function is the one that never caches; otherwise the cache function is kept. |
| Tools.RegisterTool | techies/tools.py:24-53 | The returned id is the resolved one and it maps to the prepared tool. Any earlier entry under that id is replaced. Every other entry is unchanged, and no other key appears. |
| Tools.DefaultIdsMembers | techies/tools.py:44-66 | An id is among those a series of registrations without explicit ids uses exactly when some source in the series resolves to it. |
| Tools.RegisterAll | techies/tools.py:65-66 | After a series of registrations without explicit ids, the keys are the old keys plus the ids the sources resolve to. |
| Tools.RegisterAllLastWins | techies/tools.py:65-66 | After a series of registrations, an id holds the last source registered under it. |
| Tools.RegisterAllKeepsOthers | techies/tools.py:65-66 | After a series of registrations, an id that no source uses keeps its old tool. |
| Tools.GetAllTools | techies/tools.py:55-69 | The returned copy equals the registry afterwards. Its keys are the old keys plus the seven built-in ids. |
| Tools.GetAllToolsContents | techies/tools.py:60-69 | Every built-in is listed under its id, with caching switched off. Every user tool under another id is returned unchanged. |
| Tools.GetAllToolsIdempotent | techies/tools.py:55-69 | A second call leaves the registry and the returned copy as they were after the first call. So a tool registered earlier is still listed, whatever the caller did with an earlier copy. |
| Tools.DerivedIdIsSnakeCase | techies/tools.py:49-50 | A tool with no id anywhere is registered under its snake-cased name, which has no upper-case letter. |
| Tools.RegisterToolIdempotent | techies/tools.py:52-53 | Registering the same source twice under the same id is the same as registering it once. |
| Tools.RegisterToolCommutes | techies/tools.py:44-53 | Two registrations whose resolved ids differ (explicit or derived) give the same registry in either order. |
| Callbacks.RegisterCallback | techies/callbacks.py:15-30 | Registration fails, with the actual count, exactly when the parameter count is not 1. On success the id is the explicit one or else the snake-cased function name, and it maps to the callback. Other entries are unchanged, and no other key appears. |
| Callbacks.GetAllCallbacks | techies/callbacks.py:32-35 | The copy has the registry's keys and values. |
| Callbacks.RegisteredIsListed | techies/callbacks.py:21-35 | After a successful registration, the next `get_all_callbacks` lists the new callback under its id and every other earlier callback unchanged. |
| Callbacks.DerivedIdIsSnakeCase | techies/callbacks.py:26-27 | Without an explicit id, the callback is listed under its snake-cased name, which has no upper-case letter. |
| Callbacks.RegisterCallbackIdempotent | techies/callbacks.py:29-30 | Registering the same callback twice under the same id is the same as registering it once. |
| Callbacks.FormatOutputExample | techies/callbacks.py:9-27 | A one-parameter function named `FormatOutput` is registered as `format_output`. |
| GameSpecs.TakeWord | techies/game_specs.py:2 | The word taken is the longest prefix without whitespace. |
| GameSpecs.Split | techies/game_specs.py:2 | `split()` yields only non-empty words that contain no whitespace. |
| GameSpecs.GameSpec | techies/game_specs.py:1-2 | A missing key fails, exactly. Otherwise the result is in normal form, keeps every non-whitespace character of the stored text in order, and splits into the same words as the stored text. |
| GameSpecs.GameSpecUnique | techies/game_specs.py:1-2 | Any normal-form text with the stored text's words is the looked-up result, so the contract of the lookup determines it. |
| GameSpecs.SplitSkipsSpace | techies/game_specs.py:2 | `split()` ignores a leading whitespace character. |
| GameSpecs.SplitTakesWord | techies/game_specs.py:2 | A word followed by whitespace or by the end of the text is cut off whole, as the first word, and the rest is split on its own. With the empty text giving no words, this and the previous row determine `split()`. |
| GameSpecs.SplitKeepsText | techies/game_specs.py:2 | The words, concatenated, are exactly the non-whitespace characters of the text. |
| GameSpecs.NormalizeIsNormalized | techies/game_specs.py:2 | The result has no whitespace at either end. Each whitespace character in it is a single space followed by a non-space. |
| GameSpecs.NormalizeKeepsText | techies/game_specs.py:2 | Normalising only drops or replaces whitespace. |
| GameSpecs.NormalizeKeepsWords | techies/game_specs.py:2 | Splitting the result gives the same words as splitting the input. |
| GameSpecs.SplitJoin | techies/game_specs.py:2 | Splitting words joined by single spaces gives the words back. |
| GameSpecs.NormalizedIffFixed | techies/game_specs.py:2 | Text is in normal form exactly when normalising leaves it unchanged. Both directions are proved. |
| GameSpecs.NormalizeIdempotent | techies/game_specs.py:2 | Normalising twice is the same as normalising once. |
| GameSpecs.NormalizeEmptyIffBlank | techies/game_specs.py:2 | The result is empty exactly when the text is all whitespace. |
| JsonSchema.TypeOnlyMeaning | techies/config_schema.py:9-10 | A schema with only `type` accepts exactly the values of that type. |
| JsonSchema.StringArrayMeaning | techies/config_schema.py:11-14 | `{"type": "array", "items": {"type": "string"}}` accepts exactly the arrays whose elements are all strings. |
| JsonSchema.ClosedObjectMeaning | techies/config_schema.py:5-19 | A closed object schema accepts an object exactly when three things hold: every required key is present, every key is declared, and every declared key that is present conforms. |
| JsonSchema.OneOfOfTwoDisjoint | techies/config_schema.py:30-35 | When no value satisfies both alternatives, `oneOf` of the two accepts exactly the values that satisfy either one. |
| ConfigSchema.DependsOnMeaning | techies/config_schema.py:30-35 | `depends_on` accepts exactly a string or an array of strings. |
| ConfigSchema.AgentSchemaMeaning | techies/config_schema.py:5-20 | The agent schema accepts exactly the objects that meet all of these conditions: string `goal` and `backstory`; `tools` absent or an array of strings; `verbose` and `allow_delegation` absent or booleans; no other key. |
| ConfigSchema.TaskSchemaMeaning | techies/config_schema.py:22-42 | The task schema accepts exactly the objects that meet all of these conditions: string `agent` and `description`; the optional string fields, if present, are strings; `depends_on`, if present, is a string or an array of strings; the optional flags `human_input` and `async_execution`, if present, are booleans; no other key. |
| ConfigSchema.CrewSchemaMeaning | techies/config_schema.py:44-66 | The crew schema accepts exactly the objects that meet all of these conditions: `agents` and `tasks` are arrays of strings; `input_args`, if present, is one too; `cache` and `memory`, if present, are booleans; `max_iter`, if present, is an integral number and not a boolean; no other key. |

## Left out

- The CLI layers, the crewai `Agent`/`Task`/`Crew` subclasses, fixture loading from YAML files, and the validators behind the `check` command. They are I/O and dispatch around the core, and the validators are not part of this model.
- All tool bodies: file system, HTTP, sound search and image generation. The model only registers tools. The tool classes are instantiated by the Python code, so in the model the instance a class produces is part of the input (`ToolClass.made`).
- TopologySort.TopologySortPartial: the cycle error carries the DFS stack in order, followed by the repeated vertex. Python builds it from a `set`, whose order is unspecified, and turns it into a message string. The message text is not modelled.
- TopologySort.TopologySortPartial: Python's recursion limit is not modelled. A very deep graph raises `RecursionError` there, but the model always completes.
- Naming.ToSnakeCase: lower-casing covers ASCII letters only. Python's `str.lower` also lower-cases non-ASCII letters, and that table is not modelled. The regular expression itself matches only `A-Z`, so underscores are placed exactly as in the source.
- Tools.Prepare: with `set_no_cache`, Python assigns the never-caching function on the object it was given. For an instance, that changes the caller's object and any registry entry already holding the same object. The model's tools are values, so only the newly stored entry changes. `get_all_tools` passes only classes, which are instantiated afresh, so the built-in registration is unaffected.
- Tools.Prepare: a cache function is modelled as one of two tokens, the tool's own or the never-caching replacement. What the tool's own function answers is not modelled.
- Callbacks.RegisterCallback: the only thing modelled about a callback's signature is its parameter count. Calling the callback is not modelled.
- GameSpecs.GameSpec: the description texts in the `specs` table are prose data. The table is therefore a parameter and is not copied into the model.
- JsonSchema.Conforms: only the keywords the three schemas use are modelled. The `$schema` marker is dropped. Numbers are exact reals, so floating-point rounding of large integers is not modelled.
- The deep-copy mechanics of Python objects are not modelled, because the registries are values.
