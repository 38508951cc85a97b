/**
 * The rule-side helper (DistributedHelper) forwards each Byteman primitive
 * to the controller's adapter. Every forwarding method hands back the
 * adapter's result unchanged, or rethrows whatever the adapter threw as an
 * ExecuteException whose message names the rule and the operation. The
 * primitives themselves run on the controller and are not modelled here.
 */
module HelperFacade {
  import opened Wrappers
  import opened Exceptions
  import Callbacks

  /** The operations the helper forwards, one per forwarding method. */
  datatype Operation =
    | Waiting | WaitFor | SignalWake | SignalThrow
    | CreateRendezvous | IsRendezvous | GetRendezvous | Rendezvous | DeleteRendezvous
    | CreateJoin | IsJoin | JoinEnlist | JoinWait
    | Flag | Flagged | Clear
    | IsCountDown | CreateCountDown | CountDown
    | CreateCounter | DeleteCounter | ReadCounter | IncrementCounter | DecrementCounter
    | CreateTimer | DeleteTimer | GetElapsedTimeFromTimer | ResetTimer
    | TraceOpen | TraceClose | Trace | Traceln
    | RegisterCallback | PrepareKillJVM | KillRemoteJVM

  /** The operation's name as the failure message spells it: the Java method name. */
  function OperationName(op: Operation): string {
    match op
    case Waiting => "waiting"
    case WaitFor => "waitFor"
    case SignalWake => "signalWake"
    case SignalThrow => "signalThrow"
    case CreateRendezvous => "createRendezvous"
    case IsRendezvous => "isRendezvous"
    case GetRendezvous => "getRendezvous"
    case Rendezvous => "rendezvous"
    case DeleteRendezvous => "deleteRendezvous"
    case CreateJoin => "createJoin"
    case IsJoin => "isJoin"
    case JoinEnlist => "joinEnlist"
    case JoinWait => "joinWait"
    case Flag => "flag"
    case Flagged => "flagged"
    case Clear => "clear"
    case IsCountDown => "isCountDown"
    case CreateCountDown => "createCountDown"
    case CountDown => "countDown"
    case CreateCounter => "createCounter"
    case DeleteCounter => "deleteCounter"
    case ReadCounter => "readCounter"
    case IncrementCounter => "incrementCounter"
    case DecrementCounter => "decrementCounter"
    case CreateTimer => "createTimer"
    case DeleteTimer => "deleteTimer"
    case GetElapsedTimeFromTimer => "getElapsedTimeFromTimer"
    case ResetTimer => "resetTimer"
    case TraceOpen => "traceOpen"
    case TraceClose => "traceClose"
    case Trace => "trace"
    case Traceln => "traceln"
    case RegisterCallback => "registerCallback"
    case PrepareKillJVM => "prepareKillJVM"
    case KillRemoteJVM => "killRemoteJVM"
  }

  /** The adapter's answer to one remote call: the value it returned, or what it threw. */
  datatype Reply<+T> = Returned(value: T) | Threw(cause: Throwable)

  /** `String.format("rule %s : <op> ", ruleName)`. */
  function FailureMessage(ruleName: string, op: Operation): string {
    MessageText(ruleName, OperationName(op))
  }

  /**
   * One forwarding method: the adapter's value unchanged, or an
   * ExecuteException naming the rule and the operation, with the adapter's
   * exception as its cause.
   */
  function Forward<T>(ruleName: string, op: Operation, reply: Reply<T>): (r: Result<T, Throwable>)
    ensures reply.Returned? <==> r.Success?
    ensures r.Success? ==> r.value == reply.value
    ensures r.Failure? ==> r.error.kind == Execute && r.error.cause == Some(reply.cause)
  {
    match reply
    case Returned(v) => Success(v)
    case Threw(cause) => Failure(Wrap(Execute, FailureMessage(ruleName, op), cause))
  }

  /** The text of a failure message for a rule and an operation name. */
  function MessageText(ruleName: string, name: string): string {
    "rule " + ruleName + " : " + name + " "
  }

  /** Under one rule, the message text determines the operation name. */
  lemma MessageTextIdentifiesName(ruleName: string, name1: string, name2: string)
    requires MessageText(ruleName, name1) == MessageText(ruleName, name2)
    ensures name1 == name2
  {
    var n := |"rule " + ruleName + " : "|;
    assert name1 == MessageText(ruleName, name1)[n..|MessageText(ruleName, name1)| - 1];
    assert name2 == MessageText(ruleName, name2)[n..|MessageText(ruleName, name2)| - 1];
  }

  /** For one operation name, the message text determines the rule name. */
  lemma MessageTextIdentifiesRule(rule1: string, rule2: string, name: string)
    requires MessageText(rule1, name) == MessageText(rule2, name)
    ensures rule1 == rule2
  {
    assert rule1 == MessageText(rule1, name)[5..|rule1| + 5];
    assert rule2 == MessageText(rule2, name)[5..|rule2| + 5];
  }

  /** Under one rule, the failure message identifies the operation (by its Java name) it came from. */
  lemma FailureMessageIdentifiesOperation(ruleName: string, op1: Operation, op2: Operation)
    requires FailureMessage(ruleName, op1) == FailureMessage(ruleName, op2)
    ensures OperationName(op1) == OperationName(op2)
  {
    MessageTextIdentifiesName(ruleName, OperationName(op1), OperationName(op2));
  }

  /** For one operation, the failure message identifies the rule it came from. */
  lemma FailureMessageIdentifiesRule(rule1: string, rule2: string, op: Operation)
    requires FailureMessage(rule1, op) == FailureMessage(rule2, op)
    ensures rule1 == rule2
  {
    MessageTextIdentifiesRule(rule1, rule2, OperationName(op));
  }

  /** The exit code killRemoteJVM(id) asks for. */
  const DefaultExitCode: int := -1

  /** What registerCallback(id, target, methodName) hands the adapter: a CallbackInvoker for the target and name. */
  function CallbackRegistration(target: Callbacks.Target, methodName: string): (r: Callbacks.RemoteObject)
    ensures r.CallbackObject? && r.callback.Invoker?
    ensures r.callback.invoker.target == target && r.callback.invoker.methodName == methodName
  {
    Callbacks.CallbackObject(Callbacks.Invoker(Callbacks.CallbackInvoker(target, methodName)))
  }

  /** What prepareKillJVM(id) hands the adapter: the kill handler. */
  const KillRegistration: Callbacks.RemoteObject := Callbacks.CallbackObject(Callbacks.KillHandler)

  /**
   * A node prepares its kill handler under `identifier` through the helper;
   * the controller then kills it with a code, and again through the
   * one-argument form. The node halts with that code, then with -1, and the
   * helper reports success each time.
   */
  method KillPreparedNode(registry: Callbacks.CallbackRegistry, ruleName: string, identifier: string,
                          exitCode: int, behaviour: Callbacks.Behaviour)
    returns (withCode: Option<Callbacks.Outcome>, withDefault: Option<Callbacks.Outcome>)
    modifies registry
    ensures registry.callbacks == old(registry.callbacks)[identifier := Callbacks.KillHandler]
    ensures withCode == Some(Callbacks.Halted(exitCode)) && withDefault == Some(Callbacks.Halted(DefaultExitCode))
  {
    var registered := registry.RegisterCallback(identifier, KillRegistration);
    assert Forward(ruleName, PrepareKillJVM, Returned(())) == Success(());
    var r1, r2;
    r1, withCode := registry.KillRemoteJVMWithExitCode(identifier, exitCode, behaviour);
    r2, withDefault := registry.KillRemoteJVM(identifier, behaviour);
    Callbacks.KillHandlerHaltsWith(exitCode, behaviour);
    Callbacks.KillHandlerHaltsWith(DefaultExitCode, behaviour);
  }
}
