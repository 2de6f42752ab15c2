/** The callback registry: functions of one parameter registered under an
    explicit id or their snake-cased function name. */
module Callbacks {
  import opened Wrappers
  import opened Naming

  /** A callback function as the registry sees it: its `__name__` and the
      number of parameters in its signature. */
  datatype Callback = Callback(name: string, parameterCount: nat)

  type CallbackRegistry = map<string, Callback>

  datatype CallbackError = WrongParameterCount(got: nat)

  datatype Registered = Registered(registry: CallbackRegistry, callbackId: string)

  /** `register_callback`: rejects a function whose signature does not have
      exactly one parameter; otherwise stores it under the explicit id, or under
      its name in snake case, replacing whatever that id held. */
  function RegisterCallback(reg: CallbackRegistry, callback: Callback, callbackId: Option<string>): (r: Result<Registered, CallbackError>)
    ensures r.Failure? <==> callback.parameterCount != 1
    ensures r.Failure? ==> r.error == WrongParameterCount(callback.parameterCount)
    ensures r.Success? ==>
              r.value.callbackId == (if callbackId.Some? then callbackId.value else ToSnakeCase(callback.name)) &&
              r.value.registry.Keys == reg.Keys + {r.value.callbackId} &&
              r.value.registry[r.value.callbackId] == callback &&
              forall k :: k in reg && k != r.value.callbackId ==> r.value.registry[k] == reg[k]
  {
    if callback.parameterCount != 1 then Failure(WrongParameterCount(callback.parameterCount))
    else
      var id := if callbackId.Some? then callbackId.value else ToSnakeCase(callback.name);
      Success(Registered(reg[id := callback], id))
  }

  /** `get_all_callbacks`: a copy of the registry. Maps are values here, so the
      copy is the registry itself and later changes to either cannot reach the other. */
  function GetAllCallbacks(reg: CallbackRegistry): (r: CallbackRegistry)
    ensures r.Keys == reg.Keys
    ensures forall k :: k in r ==> r[k] == reg[k]
  {
    reg
  }

  // ---------------------------------------------------------------------
  // Properties

  /** A successful registration is what `get_all_callbacks` reports next: the new
      callback under its id, every other registered callback unchanged. A rejected
      one leaves the registry as it was, since the registry is only replaced on success. */
  lemma RegisteredIsListed(reg: CallbackRegistry, callback: Callback, callbackId: Option<string>)
    requires callback.parameterCount == 1
    ensures var r := RegisterCallback(reg, callback, callbackId);
            r.Success? &&
            var all := GetAllCallbacks(r.value.registry);
            r.value.callbackId in all && all[r.value.callbackId] == callback &&
            forall k :: k in reg && k != r.value.callbackId ==> k in all && all[k] == reg[k]
  {
  }

  /** Without an explicit id the callback is listed under its snake-cased name,
      which holds no upper-case letter. */
  lemma DerivedIdIsSnakeCase(reg: CallbackRegistry, callback: Callback)
    requires callback.parameterCount == 1
    ensures var r := RegisterCallback(reg, callback, None);
            r.Success? && r.value.callbackId == ToSnakeCase(callback.name) &&
            forall i :: 0 <= i < |r.value.callbackId| ==> !IsUpper(r.value.callbackId[i])
  {
    SnakeCaseIsLower(callback.name);
  }

  /** Registering the same callback twice under the same id is registering it once. */
  lemma RegisterCallbackIdempotent(reg: CallbackRegistry, callback: Callback, callbackId: Option<string>)
    requires callback.parameterCount == 1
    ensures var once := RegisterCallback(reg, callback, callbackId);
            once.Success? && RegisterCallback(once.value.registry, callback, callbackId) == once
  {
    var once := RegisterCallback(reg, callback, callbackId).value;
    assert once.registry[once.callbackId := callback] == once.registry;
  }

  /** The documented example: a function named `FormatOutput` is registered as
      `format_output`. The two words are parameters pinned by `requires`, so that
      the solver does not unfold the conversion on a literal name. */
  lemma FormatOutputExample(reg: CallbackRegistry, x: string, y: string)
    requires x == "Format" && y == "Output"
    ensures var r := RegisterCallback(reg, Callback(x + y, 1), None);
            r.Success? && r.value.callbackId == "format_output"
  {
    SnakeCaseFormatOutputExample(x, y);
  }
}
