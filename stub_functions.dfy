/**
  The stub native functions registered into every interpreter instance
  the command handler creates: `get` and `set` that only check how many
  arguments they were given, and the registration of both.
 */
module StubFunctions {
  import opened Bobascript

  /** Stub `get`: exactly one argument of any kind, answers unit. */
  function Get(params: seq<Value>): (r: Result<Value, RuntimeError>)
    ensures r.Err? <==> |params| != 1
    ensures r.Err? ==> r.error == IncorrectParameterCount(1, |params|)
    ensures r.Ok? ==> r.value == Unit
  {
    if |params| != 1 then Err(IncorrectParameterCount(1, |params|)) else Ok(Unit)
  }

  /** Stub `set`: exactly two arguments of any kind, answers unit. */
  function Set(params: seq<Value>): (r: Result<Value, RuntimeError>)
    ensures r.Err? <==> |params| != 2
    ensures r.Err? ==> r.error == IncorrectParameterCount(2, |params|)
    ensures r.Ok? ==> r.value == Unit
  {
    if |params| != 2 then Err(IncorrectParameterCount(2, |params|)) else Ok(Unit)
  }

  /** The interpreter instance, reduced to its table of native functions. */
  class Vm {
    var natives: map<string, NativeFn>

    constructor (builtins: map<string, NativeFn>)
      ensures natives == builtins
    {
      natives := builtins;
    }

    /** `VM::define_native`: binds `name`, replacing any earlier binding. */
    method DefineNative(name: string, f: NativeFn)
      modifies this
      ensures natives == old(natives)[name := f]
    {
      natives := natives[name := f];
    }
  }

  /** `add_functions`: binds "get" and "set" to the stubs and leaves every
      other binding of the table as it was. */
  method AddFunctions(vm: Vm)
    modifies vm
    ensures vm.natives == old(vm.natives)["get" := Get]["set" := Set]
    ensures vm.natives.Keys == old(vm.natives.Keys) + {"get", "set"}
    ensures vm.natives["get"] == Get && vm.natives["set"] == Set
    ensures forall name | name in old(vm.natives) && name != "get" && name != "set" ::
      vm.natives[name] == old(vm.natives[name])
  {
    vm.DefineNative("get", Get);
    vm.DefineNative("set", Set);
  }
}
