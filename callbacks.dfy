/**
 * Remote callbacks: the reflective dispatch of CallbackInvoker (a method
 * chosen by name and the exact runtime classes of the arguments), the kill
 * handler that prepareKillJVM exports, and the controller's registry of
 * callbacks in DistributedAdapterImpl.
 */
module Callbacks {
  import opened Wrappers
  import opened Exceptions

  type ClassName = string
  type Identifier = string

  /** An argument or result of a remote call: null, a boxed Integer, a String, or any other object. */
  datatype Value = Null | IntValue(i: int) | StrValue(s: string) | Object(className: ClassName, ref: nat)

  /** `v.getClass().getName()`, defined for every value but null. */
  function ClassOf(v: Value): ClassName
    requires !v.Null?
  {
    match v
    case IntValue(_) => "java.lang.Integer"
    case StrValue(_) => "java.lang.String"
    case Object(c, _) => c
  }

  predicate HasNull(params: seq<Value>) {
    exists i :: 0 <= i < |params| && params[i].Null?
  }

  /** The runtime classes of null-free arguments, position by position. */
  function ArgumentClasses(params: seq<Value>): seq<ClassName>
    requires !HasNull(params)
  {
    seq(|params|, i requires 0 <= i < |params| => ClassOf(params[i]))
  }

  /** A public method as Class.getMethod finds it: a name and its exact parameter types. */
  datatype Signature = Signature(name: string, parameterTypes: seq<ClassName>)

  /** What the model keeps of a java.lang.reflect.Method: its printed form and whether it is void. */
  datatype MethodInfo = MethodInfo(printed: string, isVoid: bool)

  /** The target object of an invoker, seen through its class's table of public methods. */
  datatype Target = Target(methods: map<Signature, MethodInfo>)

  /** What a method body did when run on the arguments; bodies themselves are not modelled. */
  datatype Execution = Completed(value: Value) | Raised(cause: Throwable)

  type Behaviour = (MethodInfo, seq<Value>) -> Execution

  /** A CallbackInvoker: the target object and the name of the method to call on it. */
  datatype CallbackInvoker = CallbackInvoker(target: Target, methodName: string)

  /**
   * getMethod: a null argument fails at getClass(); otherwise the method
   * whose name and parameter types equal the arguments' runtime classes, or
   * NoSuchMethodException when the target has none.
   */
  function Lookup(invoker: CallbackInvoker, params: seq<Value>): Result<MethodInfo, Throwable> {
    if HasNull(params) then Failure(Throwable(NullPointer, None, None))
    else if Signature(invoker.methodName, ArgumentClasses(params)) in invoker.target.methods then
      Success(invoker.target.methods[Signature(invoker.methodName, ArgumentClasses(params))])
    else Failure(Throwable(NoSuchMethod, None, None))
  }

  function InvokeFailed(methodText: string, cause: Throwable): Throwable {
    Wrap(Remote, "Failed to invoke method [" + methodText + "].", cause)
  }

  /**
   * invoke: the looked-up method's result (null for a void method), with
   * every failure rethrown as a RemoteException naming the method, or
   * naming `null` when the lookup itself failed.
   */
  function InvokeResult(invoker: CallbackInvoker, params: seq<Value>, behaviour: Behaviour): Result<Value, Throwable> {
    match Lookup(invoker, params)
    case Failure(e) => Failure(InvokeFailed("null", e))
    case Success(m) =>
      match behaviour(m, params)
      case Completed(v) => Success(if m.isVoid then Null else v)
      case Raised(c) => Failure(InvokeFailed(m.printed, Throwable(InvocationTarget, None, Some(c))))
  }

  /** getMethod, building the list of parameter types one argument at a time. */
  method GetMethod(invoker: CallbackInvoker, params: seq<Value>) returns (r: Result<MethodInfo, Throwable>)
    ensures r == Lookup(invoker, params)
  {
    var parameterTypes: seq<ClassName> := [];
    var i := 0;
    while i < |params|
      invariant 0 <= i <= |params|
      invariant |parameterTypes| == i
      invariant forall j :: 0 <= j < i ==> !params[j].Null? && parameterTypes[j] == ClassOf(params[j])
    {
      if params[i].Null? {
        return Failure(Throwable(NullPointer, None, None));
      }
      parameterTypes := parameterTypes + [ClassOf(params[i])];
      i := i + 1;
    }
    assert parameterTypes == ArgumentClasses(params);
    var signature := Signature(invoker.methodName, parameterTypes);
    if signature in invoker.target.methods {
      r := Success(invoker.target.methods[signature]);
    } else {
      r := Failure(Throwable(NoSuchMethod, None, None));
    }
  }

  /** invoke: look the method up, run it, and wrap any failure. */
  method Invoke(invoker: CallbackInvoker, params: seq<Value>, behaviour: Behaviour) returns (r: Result<Value, Throwable>)
    ensures r == InvokeResult(invoker, params, behaviour)
    ensures r.Failure? ==> r.error.kind == Remote && r.error.cause.Some?
  {
    var found := GetMethod(invoker, params);
    if found.Failure? {
      return Failure(InvokeFailed("null", found.error));
    }
    var m := found.value;
    var execution := behaviour(m, params);
    match execution
    case Completed(v) =>
      r := Success(if m.isVoid then Null else v);
    case Raised(c) =>
      r := Failure(InvokeFailed(m.printed, Throwable(InvocationTarget, None, Some(c))));
  }

  /** The method chosen has the invoker's name and exactly the arguments' runtime classes as parameter types. */
  lemma LookupIsExact(invoker: CallbackInvoker, params: seq<Value>)
    ensures Lookup(invoker, params).Success? <==>
      !HasNull(params) && Signature(invoker.methodName, ArgumentClasses(params)) in invoker.target.methods
    ensures Lookup(invoker, params).Success? ==>
      Lookup(invoker, params).value == invoker.target.methods[Signature(invoker.methodName, ArgumentClasses(params))]
  {
  }

  /** Overloads are told apart by argument classes: no arguments picks `m()`, one String picks `m(String)`. */
  lemma OverloadByArgumentClasses(name: string, noArgs: MethodInfo, oneString: MethodInfo, s: string)
    ensures var invoker := CallbackInvoker(Target(map[Signature(name, []) := noArgs,
                                                      Signature(name, ["java.lang.String"]) := oneString]), name);
      Lookup(invoker, []) == Success(noArgs) && Lookup(invoker, [StrValue(s)]) == Success(oneString)
  {
    var one := [StrValue(s)];
    assert !HasNull(one);
    assert ArgumentClasses(one) == ["java.lang.String"];
    assert ArgumentClasses([]) == [];
  }

  /** A null argument fails before any method is found, so the message reports the method as `null`. */
  lemma NullArgumentReportsNull(invoker: CallbackInvoker, params: seq<Value>, behaviour: Behaviour)
    requires HasNull(params)
    ensures InvokeResult(invoker, params, behaviour) ==
      Failure(Wrap(Remote, "Failed to invoke method [null].", Throwable(NullPointer, None, None)))
  {
    assert "Failed to invoke method [" + "null" + "]." == "Failed to invoke method [null].";
  }

  /** A void method that completes yields null, whatever its body handed back. */
  lemma VoidMethodYieldsNull(invoker: CallbackInvoker, params: seq<Value>, behaviour: Behaviour)
    requires Lookup(invoker, params).Success? && Lookup(invoker, params).value.isVoid
    requires behaviour(Lookup(invoker, params).value, params).Completed?
    ensures InvokeResult(invoker, params, behaviour) == Success(Null)
  {
  }

  /** A registered callback: a CallbackInvoker, or the kill handler exported by prepareKillJVM. */
  datatype Callback = Invoker(invoker: CallbackInvoker) | KillHandler

  /** What calling a callback did: returned a value, threw, or halted its JVM with an exit code. */
  datatype Outcome = Returned(value: Value) | Threw(error: Throwable) | Halted(exitCode: int)

  /**
   * The kill handler's exit code: -1 with no arguments, else the first
   * argument unboxed as an Integer (null fails the unboxing, any other class
   * fails the cast).
   */
  function KillExitCode(params: seq<Value>): Result<int, Throwable> {
    if |params| == 0 then Success(-1)
    else match params[0]
      case IntValue(code) => Success(code)
      case Null => Failure(Throwable(NullPointer, None, None))
      case _ => Failure(Throwable(ClassCast, None, None))
  }

  function CallbackOutcome(callback: Callback, params: seq<Value>, behaviour: Behaviour): Outcome {
    match callback
    case Invoker(invoker) =>
      (match InvokeResult(invoker, params, behaviour)
       case Success(v) => Returned(v)
       case Failure(e) => Threw(e))
    case KillHandler =>
      (match KillExitCode(params)
       case Success(code) => Halted(code)
       case Failure(e) => Threw(e))
  }

  /** The kill handler halts with the exit code it is handed, and with -1 when handed none. */
  lemma KillHandlerHaltsWith(code: int, behaviour: Behaviour)
    ensures CallbackOutcome(KillHandler, [IntValue(code)], behaviour) == Halted(code)
    ensures CallbackOutcome(KillHandler, [], behaviour) == Halted(-1)
  {
  }

  /** The object handed to registerCallback: a callback, or an object of a class that is not a CallbackIF. */
  datatype RemoteObject = CallbackObject(callback: Callback) | PlainObject(className: ClassName)

  function NotRegistered(identifier: Identifier): Throwable {
    Raise(IllegalArgument, "The callback object of the identifier [" + identifier + "] is not registered.")
  }

  /** The controller's table of callbacks, keyed by identifier (the static `callbacks` map). */
  class CallbackRegistry {
    var callbacks: map<Identifier, Callback>

    constructor ()
      ensures callbacks == map[]
    {
      callbacks := map[];
    }

    /** Stores the target under the identifier, replacing any earlier one; a non-callback fails the cast. */
    method RegisterCallback(identifier: Identifier, target: RemoteObject) returns (r: Result<(), Throwable>)
      modifies this
      ensures target.CallbackObject? ==> r == Success(()) && callbacks == old(callbacks)[identifier := target.callback]
      ensures target.PlainObject? ==> r == Failure(Throwable(ClassCast, None, None)) && callbacks == old(callbacks)
    {
      match target
      case PlainObject(_) =>
        r := Failure(Throwable(ClassCast, None, None));
      case CallbackObject(callback) =>
        callbacks := callbacks[identifier := callback];
        r := Success(());
    }

    /** Removes the identifier's callback; an absent identifier changes nothing. */
    method UnregisterCallback(identifier: Identifier)
      modifies this
      ensures callbacks == old(callbacks) - {identifier}
      ensures identifier !in old(callbacks) ==> callbacks == old(callbacks)
    {
      callbacks := callbacks - {identifier};
    }

    /** Calls the identifier's callback with the parameters; an unregistered identifier is an error. */
    method DoCallback(identifier: Identifier, params: seq<Value>, behaviour: Behaviour) returns (r: Outcome)
      ensures identifier in callbacks ==> r == CallbackOutcome(callbacks[identifier], params, behaviour)
      ensures identifier !in callbacks ==> r == Threw(NotRegistered(identifier))
    {
      if identifier !in callbacks {
        return Threw(NotRegistered(identifier));
      }
      match callbacks[identifier]
      case Invoker(invoker) =>
        var result := Invoke(invoker, params, behaviour);
        r := if result.Success? then Returned(result.value) else Threw(result.error);
      case KillHandler =>
        var code := KillExitCode(params);
        r := if code.Success? then Halted(code.value) else Threw(code.error);
    }

    /**
     * Calls the identifier's callback with the exit code as its one argument
     * and ignores whatever it throws; `effect` is what the callback did. An
     * unregistered identifier is an error and nothing is called.
     */
    method KillRemoteJVMWithExitCode(identifier: Identifier, exitCode: int, behaviour: Behaviour)
      returns (r: Result<(), Throwable>, effect: Option<Outcome>)
      ensures identifier in callbacks ==>
        r == Success(()) && effect == Some(CallbackOutcome(callbacks[identifier], [IntValue(exitCode)], behaviour))
      ensures identifier !in callbacks ==> r == Failure(NotRegistered(identifier)) && effect == None
    {
      if identifier !in callbacks {
        return Failure(NotRegistered(identifier)), None;
      }
      var outcome := DoCallback(identifier, [IntValue(exitCode)], behaviour);
      r, effect := Success(()), Some(outcome);
    }

    /** killRemoteJVM(id): the same as killRemoteJVM(id, -1). */
    method KillRemoteJVM(identifier: Identifier, behaviour: Behaviour)
      returns (r: Result<(), Throwable>, effect: Option<Outcome>)
      ensures identifier in callbacks ==>
        r == Success(()) && effect == Some(CallbackOutcome(callbacks[identifier], [IntValue(-1)], behaviour))
      ensures identifier !in callbacks ==> r == Failure(NotRegistered(identifier)) && effect == None
    {
      r, effect := KillRemoteJVMWithExitCode(identifier, -1, behaviour);
    }
  }
}
