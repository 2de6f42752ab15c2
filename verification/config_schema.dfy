/** The schemas the agent, task and crew configuration entries are validated
    against, and what each of them accepts, stated field by field. */
module ConfigSchema {
  import opened Wrappers
  import opened Json
  import opened JsonSchema

  const AgentSchema: Schema := ClosedObject(
    map[
      "goal" := TypeOnly(TString),
      "backstory" := TypeOnly(TString),
      "tools" := StringArray(),
      "verbose" := TypeOnly(TBoolean),
      "allow_delegation" := TypeOnly(TBoolean)],
    ["goal", "backstory"])

  /** `depends_on`: one task name, or a list of them. */
  const DependsOnSchema: Schema := Schema(None, map[], [], false, None, [TypeOnly(TString), StringArray()])

  const TaskSchema: Schema := ClosedObject(
    map[
      "agent" := TypeOnly(TString),
      "description" := TypeOnly(TString),
      "expected_output" := TypeOnly(TString),
      "callback" := TypeOnly(TString),
      "depends_on" := DependsOnSchema,
      "human_input" := TypeOnly(TBoolean),
      "async_execution" := TypeOnly(TBoolean),
      "output_file" := TypeOnly(TString)],
    ["agent", "description"])

  const CrewSchema: Schema := ClosedObject(
    map[
      "agents" := StringArray(),
      "tasks" := StringArray(),
      "input_args" := StringArray(),
      "cache" := TypeOnly(TBoolean),
      "memory" := TypeOnly(TBoolean),
      "max_iter" := TypeOnly(TInteger)],
    ["agents", "tasks"])

  // ---------------------------------------------------------------------
  // What each schema accepts, written out directly

  predicate IsInteger(v: Json) { v.JNumber? && IsIntegral(v.n) }

  predicate ValidAgent(v: Json) {
    && v.JObject?
    && "goal" in v.fields && v.fields["goal"].JString?
    && "backstory" in v.fields && v.fields["backstory"].JString?
    && ("tools" in v.fields ==> IsStringArray(v.fields["tools"]))
    && ("verbose" in v.fields ==> v.fields["verbose"].JBool?)
    && ("allow_delegation" in v.fields ==> v.fields["allow_delegation"].JBool?)
    && v.fields.Keys <= {"goal", "backstory", "tools", "verbose", "allow_delegation"}
  }

  predicate ValidTask(v: Json) {
    && v.JObject?
    && "agent" in v.fields && v.fields["agent"].JString?
    && "description" in v.fields && v.fields["description"].JString?
    && ("expected_output" in v.fields ==> v.fields["expected_output"].JString?)
    && ("callback" in v.fields ==> v.fields["callback"].JString?)
    && ("depends_on" in v.fields ==> v.fields["depends_on"].JString? || IsStringArray(v.fields["depends_on"]))
    && ("human_input" in v.fields ==> v.fields["human_input"].JBool?)
    && ("async_execution" in v.fields ==> v.fields["async_execution"].JBool?)
    && ("output_file" in v.fields ==> v.fields["output_file"].JString?)
    && v.fields.Keys <= {"agent", "description", "expected_output", "callback", "depends_on",
                         "human_input", "async_execution", "output_file"}
  }

  predicate ValidCrew(v: Json) {
    && v.JObject?
    && "agents" in v.fields && IsStringArray(v.fields["agents"])
    && "tasks" in v.fields && IsStringArray(v.fields["tasks"])
    && ("input_args" in v.fields ==> IsStringArray(v.fields["input_args"]))
    && ("cache" in v.fields ==> v.fields["cache"].JBool?)
    && ("memory" in v.fields ==> v.fields["memory"].JBool?)
    && ("max_iter" in v.fields ==> IsInteger(v.fields["max_iter"]))
    && v.fields.Keys <= {"agents", "tasks", "input_args", "cache", "memory", "max_iter"}
  }

  // ---------------------------------------------------------------------
  // Properties

  /** `depends_on` accepts a string or a list of strings: the two alternatives
      never hold together, so "exactly one" is "either". */
  lemma DependsOnMeaning(v: Json)
    ensures Conforms(v, DependsOnSchema) <==> v.JString? || IsStringArray(v)
  {
    TypeOnlyMeaning(v, TString);
    StringArrayMeaning(v);
    OneOfOfTwoDisjoint(v, TypeOnly(TString), StringArray());
  }

  /** The agent schema accepts exactly the valid agent entries. */
  lemma AgentSchemaMeaning(v: Json)
    ensures Conforms(v, AgentSchema) <==> ValidAgent(v)
  {
    ClosedObjectMeaning(v, AgentSchema.properties, AgentSchema.required);
    if v.JObject? {
      AgentProperties(v.fields);
    }
  }

  lemma AgentProperties(f: map<string, Json>)
    ensures var props := AgentSchema.properties;
            && props.Keys == {"goal", "backstory", "tools", "verbose", "allow_delegation"}
            && ((forall k :: k in props && k in f ==> Conforms(f[k], props[k])) <==>
                && ("goal" in f ==> f["goal"].JString?)
                && ("backstory" in f ==> f["backstory"].JString?)
                && ("tools" in f ==> IsStringArray(f["tools"]))
                && ("verbose" in f ==> f["verbose"].JBool?)
                && ("allow_delegation" in f ==> f["allow_delegation"].JBool?))
  {
    var props := AgentSchema.properties;
    if "tools" in f {
      StringArrayMeaning(f["tools"]);
    }
    assert props.Keys == {"goal", "backstory", "tools", "verbose", "allow_delegation"};
    assert props["tools"] == StringArray();
  }

  /** The task schema accepts exactly the valid task entries. */
  lemma TaskSchemaMeaning(v: Json)
    ensures Conforms(v, TaskSchema) <==> ValidTask(v)
  {
    ClosedObjectMeaning(v, TaskSchema.properties, TaskSchema.required);
    if v.JObject? {
      TaskProperties(v.fields);
    }
  }

  lemma TaskProperties(f: map<string, Json>)
    ensures var props := TaskSchema.properties;
            && props.Keys == {"agent", "description", "expected_output", "callback", "depends_on",
                              "human_input", "async_execution", "output_file"}
            && ((forall k :: k in props && k in f ==> Conforms(f[k], props[k])) <==>
                && ("agent" in f ==> f["agent"].JString?)
                && ("description" in f ==> f["description"].JString?)
                && ("expected_output" in f ==> f["expected_output"].JString?)
                && ("callback" in f ==> f["callback"].JString?)
                && ("depends_on" in f ==> f["depends_on"].JString? || IsStringArray(f["depends_on"]))
                && ("human_input" in f ==> f["human_input"].JBool?)
                && ("async_execution" in f ==> f["async_execution"].JBool?)
                && ("output_file" in f ==> f["output_file"].JString?))
  {
    var props := TaskSchema.properties;
    if "depends_on" in f {
      DependsOnMeaning(f["depends_on"]);
    }
    assert props.Keys == {"agent", "description", "expected_output", "callback", "depends_on",
                          "human_input", "async_execution", "output_file"};
    assert props["depends_on"] == DependsOnSchema;
  }

  /** The crew schema accepts exactly the valid crew entries. */
  lemma CrewSchemaMeaning(v: Json)
    ensures Conforms(v, CrewSchema) <==> ValidCrew(v)
  {
    if v.JObject? {
      CrewProperties(v.fields);
    }
  }

  lemma CrewProperties(f: map<string, Json>)
    ensures var props := CrewSchema.properties;
            && props.Keys == {"agents", "tasks", "input_args", "cache", "memory", "max_iter"}
            && ((forall k :: k in props && k in f ==> Conforms(f[k], props[k])) <==>
                && ("agents" in f ==> IsStringArray(f["agents"]))
                && ("tasks" in f ==> IsStringArray(f["tasks"]))
                && ("input_args" in f ==> IsStringArray(f["input_args"]))
                && ("cache" in f ==> f["cache"].JBool?)
                && ("memory" in f ==> f["memory"].JBool?)
                && ("max_iter" in f ==> IsInteger(f["max_iter"])))
  {
    var props := CrewSchema.properties;
    forall k | k in f
      ensures Conforms(f[k], StringArray()) <==> IsStringArray(f[k])
    {
      StringArrayMeaning(f[k]);
    }
    assert props.Keys == {"agents", "tasks", "input_args", "cache", "memory", "max_iter"};
  }
}
