# byteman-framework, modelled in Dafny

byteman-framework runs Byteman rule-based fault injection across several
JVMs. A controller JVM reads `byteman-framework.properties` and installs
rule scripts into each node's Byteman agent. Rules running on the nodes
coordinate through the controller over RMI: joins, callbacks and killing a
node. After a test, the controller gathers what the nodes produced (files
downloaded into a result directory, or rows of a database query) and
asserts over them with keyword matchers.

This project models that core, one Dafny module per source component:

- `Config` (config.dfy): `DistributedConfig.init` over a property map, node
  identifiers taken from the `node.` keys, and `DistributedNodeConfig.get`
  with its fallback to the `*` node and then to the built-in defaults.
- `NodeControl` (node_controller.dfy): `AbstractNodeController`, meaning
  node lookup, JVM options and the `-javaagent:` argument.
- `Instrumentor` (instrumentor.dfy): `AbstractDistributedInstrumentor` and
  its `SubmitWrapper`. There is one agent client per node, and the wrapper
  tracks the scripts installed through it. The submit map is null until
  `init`, and an agent may reject an add or a delete.
- `JoinServer` (join_server.dfy): the controller half of the distributed
  join, `ControlHost` and its `JoinServerThread`.
- `JoinClient` (join_client.dfy): the rule half, `DistributedHelper.joinEnlist`
  and its watcher thread. Thread termination and the watcher's run are
  explicit steps.
- `HelperFacade` (helper_facade.dfy): the forwarding methods of
  `DistributedHelper` and the `ExecuteException` they raise.
- `Callbacks` (callbacks.dfy): `CallbackInvoker`'s reflective dispatch, the
  kill handler, and the controller's callback table in
  `DistributedAdapterImpl`.
- `FileSystem` (filesystem.dfy): the part of `java.io.File` the collectors
  use. The disk is a map from paths to entries, with recursive delete and
  `mkdirs`.
- `Results` (results.dfy): `ResultRepository`, `AbstractResultCollector.destPath`
  and `ResultFileCollector` with its line iterator.
- `Database` (database.dfy): `ResultDatabaseCollector`.
- `Deploying` (deployments.dfy): `Deployments.deploy`.
- `Assertion` (assertion.dfy): `Assertion.assertMatches`, `KeywordMatcher`
  and `NoKeywordMatcher`.
- `Text` (text.dfy) and `Wrappers` (wrappers.dfy): the Java library
  behaviour the core relies on, and Option/Result/Throwable.

How the model treats the outside world:

- Remote answers are parameters: the RMI adapter's replies, the Byteman
  agent's acceptance of a script, and the database's rows and failure.
- The order of hash-map key sets and of directory listings is left open.
  It is either a parameter (`keys`) or a nondeterministic choice.
- A thrown exception is a `Throwable` value: its Java class, its message
  when the source sets one, and its cause.

## Model

| member | source | states |
|---|---|---|
| Config.Identifier | src/main/java/jp/co/ntt/oss/jboss/byteman/framework/util/DistributedConfig.java:207-210 | the identifier is the text after the key's last '.', or the whole key when it has none; it contains no '.' |
| Config.NodeKeySplits | src/main/java/jp/co/ntt/oss/jboss/byteman/framework/util/DistributedConfig.java:117-128 | a node key is its setting name, a '.', and its identifier |
| Config.IdentifierOfJoin | src/main/java/jp/co/ntt/oss/jboss/byteman/framework/util/DistributedConfig.java:122-128 | joining a setting name with a dot-free identifier reads back as that identifier and setting name |
| Config.Init | src/main/java/jp/co/ntt/oss/jboss/byteman/framework/util/DistributedConfig.java:105-135 | init yields the configuration `InitSpec` describes, or the first error in the source's order |
| Config.CollectNodeConfigs | src/main/java/jp/co/ntt/oss/jboss/byteman/framework/util/DistributedConfig.java:116-131 | the loop over property names files every node key under its node, and fails on a new node other than "*" without `node.address.<id>` |
| Config.AddNodeKeysFailure | src/main/java/jp/co/ntt/oss/jboss/byteman/framework/util/DistributedConfig.java:119-124 | the loop fails exactly when some key names a new unaddressed node other than "*", and the message names such a node |
| Config.AddNodeKeyEffect | src/main/java/jp/co/ntt/oss/jboss/byteman/framework/util/DistributedConfig.java:117-130 | one key files its value as its setting of its node, and leaves every other setting alone |
| Config.AddNodeKeysKeeps | src/main/java/jp/co/ntt/oss/jboss/byteman/framework/util/DistributedConfig.java:116-131 | a setting that no key files keeps its value through the loop |
| Config.AddNodeKeysProvenance | src/main/java/jp/co/ntt/oss/jboss/byteman/framework/util/DistributedConfig.java:116-131 | every setting after the loop was there before or was filed by one of the keys |
| Config.AddNodeKeysFilesEach | src/main/java/jp/co/ntt/oss/jboss/byteman/framework/util/DistributedConfig.java:128-129 | with distinct property names, each node key's value ends up under its node and setting |
| Config.InitNodeConfigs | src/main/java/jp/co/ntt/oss/jboss/byteman/framework/util/DistributedConfig.java:114-131 | the nodes are exactly the identifiers of the `node.` keys, and node id holds setting ck exactly when property `ck.id` exists, with that value |
| Config.InitSucceedsIff | src/main/java/jp/co/ntt/oss/jboss/byteman/framework/util/DistributedConfig.java:105-135 | init succeeds exactly when the RMI address is set, the port parses, every node but "*" has an address, and some node other than "*" exists |
| Config.InitErrors | src/main/java/jp/co/ntt/oss/jboss/byteman/framework/util/DistributedConfig.java:107-134 | the errors in the order init checks them: missing RMI address, an unaddressed node, no node other than "*" |
| Config.NodeKeysSucceedIff | src/main/java/jp/co/ntt/oss/jboss/byteman/framework/util/DistributedConfig.java:116-131 | the node loop succeeds exactly when every named node other than "*" has an address |
| Config.RealNodeIff | src/main/java/jp/co/ntt/oss/jboss/byteman/framework/util/DistributedConfig.java:132-134 | the final check passes exactly when some key names a node other than "*" |
| Config.AddNodeKeysNodes | src/main/java/jp/co/ntt/oss/jboss/byteman/framework/util/DistributedConfig.java:116-131 | the loop's nodes are exactly the identifiers of the node keys |
| Config.OnlyAllNodes | src/main/java/jp/co/ntt/oss/jboss/byteman/framework/util/DistributedConfig.java:132 | a node map whose only possible key is "*" is empty or holds just "*", which is the case the final check rejects |
| Config.NodeGet | src/main/java/jp/co/ntt/oss/jboss/byteman/framework/util/DistributedConfig.java:258-267 | get returns the node's own value, else the "*" node's value, else the built-in default, else null |
| Config.NodeGetReadsProperties | src/main/java/jp/co/ntt/oss/jboss/byteman/framework/util/DistributedConfig.java:258-267 | read through init, a node's setting ck is property `ck.<id>`, else `ck.*`, else the default |
| Config.ParseDefaultRmiPort | src/main/java/jp/co/ntt/oss/jboss/byteman/framework/util/DistributedConfig.java:92-111 | the default port text "1099" parses as the number 1099 |
| Config.DefaultRmiPort | src/main/java/jp/co/ntt/oss/jboss/byteman/framework/util/DistributedConfig.java:92-111 | with no `controller.rmi.port` property the RMI port is 1099 |
| NodeControl.AbstractNodeController.constructor | src/main/java/jp/co/ntt/oss/jboss/byteman/framework/controller/AbstractNodeController.java:50-57 | the controller holds the node's configuration and has no options |
| NodeControl.NewNodeController | src/main/java/jp/co/ntt/oss/jboss/byteman/framework/controller/AbstractNodeController.java:50-57 | an identifier without a node configuration fails with "<id> is not defined.", and every other identifier succeeds |
| NodeControl.AbstractNodeController.GetNodeConfigOr | src/main/java/jp/co/ntt/oss/jboss/byteman/framework/controller/AbstractNodeController.java:88-90 | the default is returned exactly when the setting is null |
| NodeControl.AbstractNodeController.SetOptions | src/main/java/jp/co/ntt/oss/jboss/byteman/framework/controller/AbstractNodeController.java:106-108 | the options are replaced |
| NodeControl.AbstractNodeController.GetOptions | src/main/java/jp/co/ntt/oss/jboss/byteman/framework/controller/AbstractNodeController.java:116-120 | the options ("" when unset), followed by the debug flag exactly when debug is on |
| NodeControl.AbstractNodeController.AgentProperties | src/main/java/jp/co/ntt/oss/jboss/byteman/framework/controller/AbstractNodeController.java:134-157 | the argument-building loop yields the agent argument `AgentPropertiesSpec` describes |
| NodeControl.AbstractNodeController.AgentPropertiesErrors | src/main/java/jp/co/ntt/oss/jboss/byteman/framework/controller/AbstractNodeController.java:135-142 | a missing byteman jar is reported first, then a missing framework jar; the argument exists exactly when both are set |
| NodeControl.AbstractNodeController.AgentPropertiesExtend | src/main/java/jp/co/ntt/oss/jboss/byteman/framework/controller/AbstractNodeController.java:151-155 | more scripts only extend the argument, by one `,script:<path>` each |
| NodeControl.ScriptSuffixConcat | src/main/java/jp/co/ntt/oss/jboss/byteman/framework/controller/AbstractNodeController.java:151-155 | the script suffix of a concatenation is the concatenation of the suffixes |
| NodeControl.ScriptSuffixOne | src/main/java/jp/co/ntt/oss/jboss/byteman/framework/controller/AbstractNodeController.java:153 | one script contributes exactly `,script:<path>` |
| NodeControl.TwoScriptsSuffix | src/test/java/jp/co/ntt/oss/jboss/byteman/framework/controller/AbstractNodeControllerTest.java:122-137 | two scripts render as `,script:/test1.btm,script:/test2.btm` |
| NodeControl.AgentAddressFromProperties | src/main/java/jp/co/ntt/oss/jboss/byteman/framework/controller/AbstractNodeController.java:147 | the agent's address is the node's `node.address.<id>`, else the "*" node's, else "null" |
| Instrumentor.SubmitWrapper.constructor | src/main/java/jp/co/ntt/oss/jboss/byteman/framework/instrumentor/AbstractDistributedInstrumentor.java:147-150 | a wrapper starts with no tracked scripts |
| Instrumentor.SubmitWrapper.AddScript | src/main/java/jp/co/ntt/oss/jboss/byteman/framework/instrumentor/AbstractDistributedInstrumentor.java:159-164 | a one-script add is sent; the script is tracked exactly when the agent accepted it, and the tracked list stays what the agent holds |
| Instrumentor.Submit.DeleteScripts | src/main/java/jp/co/ntt/oss/jboss/byteman/framework/instrumentor/AbstractDistributedInstrumentor.java:175 | the delete is recorded with whether the agent accepted it, and its exception is returned when it did not |
| Instrumentor.SubmitWrapper.RemoveScripts | src/main/java/jp/co/ntt/oss/jboss/byteman/framework/instrumentor/AbstractDistributedInstrumentor.java:172-181 | a delete of the tracked scripts is sent only when there are some, and a failing delete is ignored; the list is emptied either way, so it still matches the agent exactly when nothing was tracked or the delete went through |
| Instrumentor.InstalledAfterRemove | src/main/java/jp/co/ntt/oss/jboss/byteman/framework/instrumentor/AbstractDistributedInstrumentor.java:172-181 | after removeScripts the agent holds nothing from the wrapper exactly when nothing was tracked or it accepted the delete; after a rejected delete it still holds every script the wrapper forgot |
| Instrumentor.NodeEndpoint | src/main/java/jp/co/ntt/oss/jboss/byteman/framework/instrumentor/AbstractDistributedInstrumentor.java:58-61 | a node's endpoint is its address and its Byteman port; it fails with NumberFormatException exactly when the port does not parse |
| Instrumentor.TargetsSucceedIff | src/main/java/jp/co/ntt/oss/jboss/byteman/framework/instrumentor/AbstractDistributedInstrumentor.java:54-62 | init stops exactly when a node other than "*" has a port that does not parse |
| Instrumentor.TargetsContent | src/main/java/jp/co/ntt/oss/jboss/byteman/framework/instrumentor/AbstractDistributedInstrumentor.java:54-62 | on success, init records one endpoint for each node other than "*", and nothing else |
| Instrumentor.InitEndpoints | src/main/java/jp/co/ntt/oss/jboss/byteman/framework/instrumentor/AbstractDistributedInstrumentor.java:53-62 | over a configuration that init accepted, the submit map holds every node but "*", each with its own endpoint |
| Instrumentor.DefaultAgentPort | src/main/java/jp/co/ntt/oss/jboss/byteman/framework/instrumentor/AbstractDistributedInstrumentor.java:60 | a node with no Byteman port property of its own or of "*" gets an agent on port 9091 |
| Instrumentor.ReadLines | src/main/java/jp/co/ntt/oss/jboss/byteman/framework/instrumentor/AbstractDistributedInstrumentor.java:93-97 | the lines a reader yields contain no newline |
| Instrumentor.ReadScript | src/main/java/jp/co/ntt/oss/jboss/byteman/framework/instrumentor/AbstractDistributedInstrumentor.java:93-97 | the reading loop builds each line followed by "\n" |
| Instrumentor.ScriptBodyOfReadLines | src/main/java/jp/co/ntt/oss/jboss/byteman/framework/instrumentor/AbstractDistributedInstrumentor.java:87-103 | a stream's text comes back from its lines unchanged, except that a final newline is added when it had none |
| Instrumentor.ReadLinesOfScriptBody | src/main/java/jp/co/ntt/oss/jboss/byteman/framework/instrumentor/AbstractDistributedInstrumentor.java:87-103 | lines joined with newlines read back as the same lines |
| Instrumentor.ScriptBodyConcat | src/main/java/jp/co/ntt/oss/jboss/byteman/framework/instrumentor/AbstractDistributedInstrumentor.java:94-97 | the text of two runs of lines is the concatenation of their texts |
| Instrumentor.AbstractDistributedInstrumentor.constructor | src/main/java/jp/co/ntt/oss/jboss/byteman/framework/instrumentor/AbstractDistributedInstrumentor.java:43-44 | a new instrumentor has no submit map (it is null) until init |
| Instrumentor.AbstractDistributedInstrumentor.Init | src/main/java/jp/co/ntt/oss/jboss/byteman/framework/instrumentor/AbstractDistributedInstrumentor.java:52-63 | fresh, empty wrappers are created at the endpoints `Targets` computes, and the error stops init; nodes are distinct and no wrapper is shared |
| Instrumentor.AbstractDistributedInstrumentor.Put | src/main/java/jp/co/ntt/oss/jboss/byteman/framework/instrumentor/AbstractDistributedInstrumentor.java:61 | one more node gets a fresh client and wrapper at its endpoint |
| Instrumentor.AbstractDistributedInstrumentor.InstallScript | src/main/java/jp/co/ntt/oss/jboss/byteman/framework/instrumentor/AbstractDistributedInstrumentor.java:117-123 | before init the null map raises NullPointerException; an unknown node fails with "[<id>] is not defined."; in both cases nothing changes; otherwise only that node's wrapper adds the script |
| Instrumentor.AbstractDistributedInstrumentor.InstallScriptStream | src/main/java/jp/co/ntt/oss/jboss/byteman/framework/instrumentor/AbstractDistributedInstrumentor.java:86-104 | the script installed is the stream's lines, each followed by "\n" |
| Instrumentor.AbstractDistributedInstrumentor.InstallScriptFile | src/main/java/jp/co/ntt/oss/jboss/byteman/framework/instrumentor/AbstractDistributedInstrumentor.java:73-75 | a missing file fails before the node is looked up; otherwise it is the stream variant on the file's text |
| Instrumentor.AbstractDistributedInstrumentor.Destroy | src/main/java/jp/co/ntt/oss/jboss/byteman/framework/instrumentor/AbstractDistributedInstrumentor.java:130-135 | before init the null map raises NullPointerException and nothing changes; otherwise every wrapper is emptied, every agent is sent a delete of what it held, if anything, the map is emptied, and each agent holds nothing exactly when its delete went through |
| Instrumentor.AbstractDistributedInstrumentor.RemoveAll | src/main/java/jp/co/ntt/oss/jboss/byteman/framework/instrumentor/AbstractDistributedInstrumentor.java:131-133 | the removal loop visits every wrapper once, in some order, and each ends empty with its agent sent its delete |
| Instrumentor.AbstractDistributedInstrumentor.RemoveTracked | src/main/java/jp/co/ntt/oss/jboss/byteman/framework/instrumentor/AbstractDistributedInstrumentor.java:131-133 | over wrappers that list what their agents hold, the removal loop leaves every list empty and each agent holding nothing, or, when its delete failed, what its wrapper listed |
| Instrumentor.AbstractDistributedInstrumentor.InstalledAfterRemoveAll | src/main/java/jp/co/ntt/oss/jboss/byteman/framework/instrumentor/AbstractDistributedInstrumentor.java:172-181 | for every node at once: the agent holds nothing after an accepted delete, and what its wrapper listed after a rejected one |
| JoinServer.SessionKey | src/main/java/jp/co/ntt/oss/jboss/byteman/framework/adapter/rmi/ControlHost.java:68 | the session key is the decimal time followed by the decimal thread id, digits only |
| JoinServer.SessionKeyInjectiveForSameWidth | src/main/java/jp/co/ntt/oss/jboss/byteman/framework/adapter/rmi/ControlHost.java:68 | keys made from times of equal width are equal only for the same time and thread |
| JoinServer.SessionKeyCollision | src/main/java/jp/co/ntt/oss/jboss/byteman/framework/adapter/rmi/ControlHost.java:68 | the concatenation has no separator, so (1, 23) and (12, 3) give the same key |
| JoinServer.JoinServerThread.constructor | src/main/java/jp/co/ntt/oss/jboss/byteman/framework/adapter/rmi/ControlHost.java:116-119 | a new server thread has no result and has not finished enlisting |
| JoinServer.JoinServerThread.RunEnlist | src/main/java/jp/co/ntt/oss/jboss/byteman/framework/adapter/rmi/ControlHost.java:126-129 | the thread records the engine's joinEnlist answer and marks enlisting finished |
| JoinServer.JoinServerThread.Release | src/main/java/jp/co/ntt/oss/jboss/byteman/framework/adapter/rmi/ControlHost.java:130-145 | the thread is released, and its result is kept |
| JoinServer.ControlHost.constructor | src/main/java/jp/co/ntt/oss/jboss/byteman/framework/adapter/rmi/ControlHost.java:36 | the join-thread table starts empty |
| JoinServer.ControlHost.JoinEnlist | src/main/java/jp/co/ntt/oss/jboss/byteman/framework/adapter/rmi/ControlHost.java:42-44 | plain joinEnlist is not supported on the controller |
| JoinServer.ControlHost.JoinEnlistStart | src/main/java/jp/co/ntt/oss/jboss/byteman/framework/adapter/rmi/ControlHost.java:50-77 | a key is returned exactly when the engine accepts; it is the session key of the time and thread, and it then maps to a new server thread for the identifier and thread while every other entry stays; otherwise the table is unchanged |
| JoinServer.ControlHost.JoinEnlistEnd | src/main/java/jp/co/ntt/oss/jboss/byteman/framework/adapter/rmi/ControlHost.java:83-94 | the key's thread is released and the key leaves the table; an unknown key changes nothing |
| JoinServer.TwoEnlistsThenEnd | src/main/java/jp/co/ntt/oss/jboss/byteman/framework/adapter/rmi/ControlHost.java:50-94 | two enlists from different threads get two different keys |
| JoinServer.CollidingEnlists | src/main/java/jp/co/ntt/oss/jboss/byteman/framework/adapter/rmi/ControlHost.java:67-69 | two accepted enlists whose keys collide leave one table entry, holding the second proxy, while the first stays parked |
| JoinClient.RemoveFirst | src/main/java/jp/co/ntt/oss/jboss/byteman/framework/helper/DistributedHelper.java:437 | `List.remove(Object)` drops the first occurrence only |
| JoinClient.RemoveFirstKeepsDistinct | src/main/java/jp/co/ntt/oss/jboss/byteman/framework/helper/DistributedHelper.java:436-440 | removing a thread from a duplicate-free list leaves a duplicate-free list without it |
| JoinClient.ReleaseKeepsInvariant | src/main/java/jp/co/ntt/oss/jboss/byteman/framework/helper/DistributedHelper.java:435-440 | a watcher's clean-up keeps the table well formed, and its thread is no longer listed under its identifier |
| JoinClient.DropWatcherKeepsInvariant | src/main/java/jp/co/ntt/oss/jboss/byteman/framework/helper/DistributedHelper.java:441-443 | a watcher that ends without cleaning up keeps the invariant |
| JoinClient.JoinClient.constructor | src/main/java/jp/co/ntt/oss/jboss/byteman/framework/helper/DistributedHelper.java:359 | the table starts empty |
| JoinClient.JoinClient.JoinEnlist | src/main/java/jp/co/ntt/oss/jboss/byteman/framework/helper/DistributedHelper.java:370-400 | a thread already listed gets false with no remote call; otherwise: an exception becomes an ExecuteException, a null key gives false, and a key lists the thread and starts its watcher |
| JoinClient.JoinClient.RunWatcher | src/main/java/jp/co/ntt/oss/jboss/byteman/framework/helper/DistributedHelper.java:429-445 | after its thread ends, the watcher ends its key on the controller and, if that returns, takes the thread off the table |
| JoinClient.TwoThreadsEnlist | src/main/java/jp/co/ntt/oss/jboss/byteman/framework/helper/DistributedHelper.java:370-400 | two threads are both recorded, and a repeat enlist by the first is turned away without a remote call |
| JoinClient.TwoThreadsFinish | src/main/java/jp/co/ntt/oss/jboss/byteman/framework/helper/DistributedHelper.java:429-445 | each key is ended once, in order, and the table ends up empty |
| HelperFacade.Forward | src/main/java/jp/co/ntt/oss/jboss/byteman/framework/helper/DistributedHelper.java:130-141 | the adapter's value unchanged, or an ExecuteException "rule <r> : <op> " with the adapter's exception as cause |
| HelperFacade.FailureMessageIdentifiesOperation | src/main/java/jp/co/ntt/oss/jboss/byteman/framework/helper/DistributedHelper.java:137 | under one rule, equal failure messages name the same operation |
| HelperFacade.FailureMessageIdentifiesRule | src/main/java/jp/co/ntt/oss/jboss/byteman/framework/helper/DistributedHelper.java:137 | for one operation, equal failure messages name the same rule |
| HelperFacade.CallbackRegistration | src/main/java/jp/co/ntt/oss/jboss/byteman/framework/helper/DistributedHelper.java:885-894 | registerCallback hands the adapter a CallbackInvoker for the target and method name |
| HelperFacade.KillPreparedNode | src/main/java/jp/co/ntt/oss/jboss/byteman/framework/helper/DistributedHelper.java:903-953 | a node whose kill handler is prepared halts with the code it is killed with, and with -1 for the one-argument form |
| Callbacks.GetMethod | src/main/java/jp/co/ntt/oss/jboss/byteman/framework/adapter/rmi/CallbackInvoker.java:68-74 | the loop over the arguments finds the method `Lookup` describes |
| Callbacks.LookupIsExact | src/main/java/jp/co/ntt/oss/jboss/byteman/framework/adapter/rmi/CallbackInvoker.java:68-74 | a method is found exactly when no argument is null and one has the name and exactly the arguments' runtime classes |
| Callbacks.OverloadByArgumentClasses | src/main/java/jp/co/ntt/oss/jboss/byteman/framework/adapter/rmi/CallbackInvoker.java:68-74 | overloads are told apart by the arguments' classes |
| Callbacks.Invoke | src/main/java/jp/co/ntt/oss/jboss/byteman/framework/adapter/rmi/CallbackInvoker.java:57-66 | invoke gives the method's result, or a RemoteException with a cause |
| Callbacks.NullArgumentReportsNull | src/main/java/jp/co/ntt/oss/jboss/byteman/framework/adapter/rmi/CallbackInvoker.java:59-64 | a null argument fails before lookup, so the message says "Failed to invoke method [null]." |
| Callbacks.VoidMethodYieldsNull | src/main/java/jp/co/ntt/oss/jboss/byteman/framework/adapter/rmi/CallbackInvoker.java:62 | a void method that completes yields null |
| Callbacks.KillHandlerHaltsWith | src/main/java/jp/co/ntt/oss/jboss/byteman/framework/helper/DistributedHelper.java:908-917 | the kill handler halts with its Integer argument, and with -1 when it has none |
| Callbacks.CallbackRegistry.constructor | src/main/java/jp/co/ntt/oss/jboss/byteman/framework/adapter/DistributedAdapterImpl.java:76 | the callback table starts empty |
| Callbacks.CallbackRegistry.RegisterCallback | src/main/java/jp/co/ntt/oss/jboss/byteman/framework/adapter/DistributedAdapterImpl.java:464-468 | a callback replaces any earlier one under the identifier; a non-callback fails the cast and changes nothing |
| Callbacks.CallbackRegistry.UnregisterCallback | src/main/java/jp/co/ntt/oss/jboss/byteman/framework/adapter/DistributedAdapterImpl.java:474-478 | the identifier's callback is removed; an absent identifier changes nothing |
| Callbacks.CallbackRegistry.DoCallback | src/main/java/jp/co/ntt/oss/jboss/byteman/framework/adapter/DistributedAdapterImpl.java:484-495 | the registered callback's outcome, or IllegalArgumentException "The callback object of the identifier [<id>] is not registered." |
| Callbacks.CallbackRegistry.KillRemoteJVMWithExitCode | src/main/java/jp/co/ntt/oss/jboss/byteman/framework/adapter/DistributedAdapterImpl.java:443-458 | the callback is called with the exit code and whatever it throws is ignored; an unregistered identifier is an error and nothing is called |
| Callbacks.CallbackRegistry.KillRemoteJVM | src/main/java/jp/co/ntt/oss/jboss/byteman/framework/adapter/DistributedAdapterImpl.java:433-437 | the same as the two-argument form with -1 |
| FileSystem.Disk.Delete | src/main/java/jp/co/ntt/oss/jboss/byteman/framework/util/ResultRepository.java:80-83 | deleting a path with nothing below it removes exactly that path |
| FileSystem.Disk.Mkdirs | src/main/java/jp/co/ntt/oss/jboss/byteman/framework/assertion/AbstractResultCollector.java:54 | mkdirs succeeds exactly when the file system does not refuse (a denied permission, a read-only volume or an I/O error, given as `refused`) and no ancestor is a regular file; it then makes the path and its missing ancestors directories, and otherwise changes nothing |
| FileSystem.MkdirsWellFormed | src/main/java/jp/co/ntt/oss/jboss/byteman/framework/assertion/AbstractResultCollector.java:54 | mkdirs keeps every path's parent a directory |
| Results.NullOrBlank | src/main/java/jp/co/ntt/oss/jboss/byteman/framework/util/ResultRepository.java:41-44 | `s == null \|\| s.trim().length() == 0` holds exactly when s is null or all whitespace |
| Results.NewResultRepository | src/main/java/jp/co/ntt/oss/jboss/byteman/framework/util/ResultRepository.java:40-49 | the constructor succeeds exactly when both names are non-blank; the class name is checked first, and the names are kept untrimmed |
| Results.GetPath | src/main/java/jp/co/ntt/oss/jboss/byteman/framework/util/ResultRepository.java:57-60 | an unset or missing result directory is an IllegalStateException with the source's message; otherwise the path lies below the result directory |
| Results.GetPathInjective | src/main/java/jp/co/ntt/oss/jboss/byteman/framework/util/ResultRepository.java:59 | for class names without '/', different repositories get different paths |
| Results.DeleteDirectory | src/main/java/jp/co/ntt/oss/jboss/byteman/framework/util/ResultRepository.java:74-85 | the directory and everything below it are removed and nothing else; a regular file fails with a NullPointerException and changes nothing |
| Results.DeleteEntry | src/main/java/jp/co/ntt/oss/jboss/byteman/framework/util/ResultRepository.java:77-81 | one listed entry of the directory is removed with everything below it |
| Results.Clear | src/main/java/jp/co/ntt/oss/jboss/byteman/framework/util/ResultRepository.java:65-67 | clear fails as getPath fails, and otherwise deletes the result directory |
| Results.ClearEmptiesResults | src/main/java/jp/co/ntt/oss/jboss/byteman/framework/util/ResultRepository.java:65-67 | after clear, nothing is left below any collector's destination |
| Results.DestPathSpec | src/main/java/jp/co/ntt/oss/jboss/byteman/framework/assertion/AbstractResultCollector.java:49-58 | destPath is getPath + "/" + identifier; it succeeds exactly when that exists, or when mkdirs is not refused and no ancestor is a regular file; otherwise it fails with "Failed to create the directory <path>.", and keeps every existing entry |
| Results.DestPathWellFormed | src/main/java/jp/co/ntt/oss/jboss/byteman/framework/assertion/AbstractResultCollector.java:53-56 | destPath keeps the disk well formed |
| Results.DestPathIdempotent | src/main/java/jp/co/ntt/oss/jboss/byteman/framework/assertion/AbstractResultCollector.java:49-58 | a second destPath gives the same path and changes nothing, whether or not the file system would refuse a mkdirs |
| Results.DestPath | src/main/java/jp/co/ntt/oss/jboss/byteman/framework/assertion/AbstractResultCollector.java:49-58 | the method yields the result and disk `DestPathSpec` describes |
| Results.PollsYieldLines | src/main/java/jp/co/ntt/oss/jboss/byteman/framework/assertion/ResultFileCollector.java:122-148 | the k-th hasNext() is true and next() then gives the file's k-th line |
| Results.PollsAfterLastLine | src/main/java/jp/co/ntt/oss/jboss/byteman/framework/assertion/ResultFileCollector.java:130-142 | the hasNext() after the last line is false and closes the reader; one more fails with "Stream closed" |
| Results.PollsUnreadable | src/main/java/jp/co/ntt/oss/jboss/byteman/framework/assertion/ResultFileCollector.java:124-134 | for a file that cannot be opened, every hasNext() fails with a RuntimeException caused by FileNotFoundException |
| Results.FileLineIterator.constructor | src/main/java/jp/co/ntt/oss/jboss/byteman/framework/assertion/ResultFileCollector.java:116-119 | a new iterator has not opened its file |
| Results.FileLineIterator.HasNext | src/main/java/jp/co/ntt/oss/jboss/byteman/framework/assertion/ResultFileCollector.java:122-143 | one hasNext() is the step `HasNextStep` describes on the file's content |
| Exceptions.Unsupported | src/main/java/jp/co/ntt/oss/jboss/byteman/framework/assertion/ResultFileCollector.java:152 | `new UnsupportedOperationException()` has that kind, no message and no cause |
| Results.FileLineIterator.Remove | src/main/java/jp/co/ntt/oss/jboss/byteman/framework/assertion/ResultFileCollector.java:151-153 | remove() throws the bare UnsupportedOperationException |
| Results.ReachedThroughDirectory | src/main/java/jp/co/ntt/oss/jboss/byteman/framework/assertion/ResultFileCollector.java:101-102 | the files reached from a listed subdirectory are exactly the files reached from the directory through it |
| Results.ReachedThroughFile | src/main/java/jp/co/ntt/oss/jboss/byteman/framework/assertion/ResultFileCollector.java:103-104 | a listed regular file reaches only itself |
| Results.CollectedFiles | src/main/java/jp/co/ntt/oss/jboss/byteman/framework/assertion/ResultFileCollector.java:97-108 | exactly the regular files reachable through entries the filter accepts, each once, each behind a fresh unopened iterator |
| Results.CollectedThrough | src/main/java/jp/co/ntt/oss/jboss/byteman/framework/assertion/ResultFileCollector.java:101-105 | one listed entry contributes exactly the files reached through it |
| Results.ResultFileCollector.constructor | src/main/java/jp/co/ntt/oss/jboss/byteman/framework/assertion/ResultFileCollector.java:57-62 | the collector keeps its repository, identifier and target path, with no filter |
| Results.ResultFileCollector.SetFilter | src/main/java/jp/co/ntt/oss/jboss/byteman/framework/assertion/ResultFileCollector.java:68-70 | the filter is replaced |
| Results.ResultFileCollector.Collect | src/main/java/jp/co/ntt/oss/jboss/byteman/framework/assertion/ResultFileCollector.java:76-78 | a destPath error, including a refused mkdirs, stops collect; otherwise one download from the node's target path into the destination is recorded, and its fault is returned |
| Results.ResultFileCollector.GetResult | src/main/java/jp/co/ntt/oss/jboss/byteman/framework/assertion/ResultFileCollector.java:86-88 | the files collected under destPath, or destPath's error |
| Database.BuildRow | src/main/java/jp/co/ntt/oss/jboss/byteman/framework/assertion/ResultDatabaseCollector.java:100-103 | the column loop yields the row `RowSpec` describes |
| Database.RowSpecKeys | src/main/java/jp/co/ntt/oss/jboss/byteman/framework/assertion/ResultDatabaseCollector.java:101-103 | a row's keys are exactly the lower-cased column names |
| Database.RowSpecLastWins | src/main/java/jp/co/ntt/oss/jboss/byteman/framework/assertion/ResultDatabaseCollector.java:101-103 | under each name a row holds the value of the last column with that lower-cased name |
| Database.RowIterator.constructor | src/main/java/jp/co/ntt/oss/jboss/byteman/framework/assertion/ResultDatabaseCollector.java:104-105 | a row iterator starts with hasNext() true |
| Database.RowIterator.Next | src/main/java/jp/co/ntt/oss/jboss/byteman/framework/assertion/ResultDatabaseCollector.java:113-116 | next() gives the row and hasNext() is false afterwards |
| Database.RowIterator.Remove | src/main/java/jp/co/ntt/oss/jboss/byteman/framework/assertion/ResultDatabaseCollector.java:119-121 | remove() throws the bare UnsupportedOperationException |
| Database.ResultDatabaseCollector.constructor | src/main/java/jp/co/ntt/oss/jboss/byteman/framework/assertion/ResultDatabaseCollector.java:63-81 | the collector starts with no rows |
| Database.ResultDatabaseCollector.Collect | src/main/java/jp/co/ntt/oss/jboss/byteman/framework/assertion/ResultDatabaseCollector.java:87-141 | one fresh iterator per returned row is appended in row order, earlier rows are kept, and the query's failure is passed on |
| Database.UpperCaseColumnLowered | src/test/java/jp/co/ntt/oss/jboss/byteman/framework/assertion/ResultDatabaseCollectorTest.java:61-94 | the column "USER_ID" is read as "user_id" |
| Deploying.AbsolutePathInjective | src/main/java/jp/co/ntt/oss/jboss/byteman/framework/util/Deployments.java:69 | different files get different absolute paths |
| Deploying.UploadFiles | src/main/java/jp/co/ntt/oss/jboss/byteman/framework/util/Deployments.java:68-70 | the inner loop uploads every listed file to one node, each once |
| Deploying.PlannedStep | src/main/java/jp/co/ntt/oss/jboss/byteman/framework/util/Deployments.java:66-72 | one more node key adds that node's uploads, unless it is "*" |
| Deploying.Deploy | src/main/java/jp/co/ntt/oss/jboss/byteman/framework/util/Deployments.java:57-74 | nothing when the destination is null or blank or `deployments` is not a directory; otherwise exactly one upload per node other than "*" and per file |
| Deploying.NewNodeNoRepeats | src/main/java/jp/co/ntt/oss/jboss/byteman/framework/util/Deployments.java:66-72 | uploads to a node not seen before repeat none of the earlier ones |
| Deploying.DeployReachesEveryNode | src/main/java/jp/co/ntt/oss/jboss/byteman/framework/util/Deployments.java:66-70 | every file goes to every node other than "*" |
| Deploying.DeploySkipsAllNodes | src/main/java/jp/co/ntt/oss/jboss/byteman/framework/util/Deployments.java:67 | the "*" node never receives an upload |
| Assertion.MatchLine | src/main/java/jp/co/ntt/oss/jboss/byteman/framework/assertion/Assertion.java:77-91 | the index-stepping inner loop over one fragment agrees with `StepLine` |
| Assertion.CheckUnmatched | src/main/java/jp/co/ntt/oss/jboss/byteman/framework/assertion/Assertion.java:97-101 | the final loop fails on the first SUCCESS_IF_MATCH matcher left |
| Assertion.AssertMatches | src/main/java/jp/co/ntt/oss/jboss/byteman/framework/assertion/Assertion.java:71-102 | assertMatches gives the outcome and hasNext() count that `AssertMatchesOutcome` describes: the scan of `AssertMatchesSpec` over the iterators up to the first whose hasNext() raises, and that exception when the scan reads all of them without stopping |
| Assertion.ReadFragments | src/main/java/jp/co/ntt/oss/jboss/byteman/framework/assertion/Assertion.java:75-95 | the inner loop over one iterator reads its fragments as `Scan` does, and stops at a forbidden match or once no matcher is left |
| Assertion.AssertMatches1 | src/main/java/jp/co/ntt/oss/jboss/byteman/framework/assertion/Assertion.java:37-41 | the one-matcher form is the list form on [m1] |
| Assertion.AssertMatches2 | src/main/java/jp/co/ntt/oss/jboss/byteman/framework/assertion/Assertion.java:46-51 | the two-matcher form is the list form on [m1, m2] |
| Assertion.AssertMatches3 | src/main/java/jp/co/ntt/oss/jboss/byteman/framework/assertion/Assertion.java:56-62 | the three-matcher form is the list form on [m1, m2, m3] |
| Assertion.FaultFreeOutcome | src/main/java/jp/co/ntt/oss/jboss/byteman/framework/assertion/Assertion.java:71-102 | when no hasNext() raises, assertMatches returns the verdict of the scan over all fragments, with the same number of hasNext() calls |
| Assertion.FaultAfterStopUnseen | src/main/java/jp/co/ntt/oss/jboss/byteman/framework/assertion/Assertion.java:74-95 | an exception from hasNext() is never seen once the assertion has failed on a fragment or run out of matchers: the outcome is that of the scan over all fragments |
| Assertion.StepLineKeeps | src/main/java/jp/co/ntt/oss/jboss/byteman/framework/assertion/Assertion.java:78-91 | one fragment fails on an offended matcher, and otherwise keeps exactly the matchers it does not retire |
| Assertion.NoMatcherPasses | src/main/java/jp/co/ntt/oss/jboss/byteman/framework/assertion/Assertion.java:92-94 | with no matcher left the assertion passes, whatever follows |
| Assertion.ScanAgreesWithLines | src/main/java/jp/co/ntt/oss/jboss/byteman/framework/assertion/Assertion.java:74-101 | the scan, with its iterator boundaries and early return, reaches the verdict of reading all fragments in one run |
| Assertion.AssertMatchesReadsAllFragments | src/main/java/jp/co/ntt/oss/jboss/byteman/framework/assertion/Assertion.java:71-102 | assertMatches reaches the verdict of the reference reading over all fragments |
| Assertion.FinalNamesUnmatched | src/main/java/jp/co/ntt/oss/jboss/byteman/framework/assertion/Assertion.java:97-101 | the final check passes exactly when no SUCCESS_IF_MATCH matcher is left, and otherwise names one |
| Assertion.SatisfiedStep | src/main/java/jp/co/ntt/oss/jboss/byteman/framework/assertion/Assertion.java:78-91 | after a fragment that offends nothing, the rest satisfies the survivors exactly when all the fragments satisfy the list |
| Assertion.ScanLinesPassIff | src/main/java/jp/co/ntt/oss/jboss/byteman/framework/assertion/Assertion.java:71-102 | the reference reading passes exactly when every SUCCESS_IF_MATCH matcher matches some fragment and no SUCCESS_IF_NOT_MATCH matcher matches any |
| Assertion.ScanLinesMatchedBy | src/main/java/jp/co/ntt/oss/jboss/byteman/framework/assertion/Assertion.java:87-88 | "Matched by" names a SUCCESS_IF_NOT_MATCH matcher of the list and the first fragment any such matcher matches |
| Assertion.ScanLinesNotMatchedBy | src/main/java/jp/co/ntt/oss/jboss/byteman/framework/assertion/Assertion.java:97-101 | "Not matched by" names a SUCCESS_IF_MATCH matcher that matches no fragment |
| Assertion.AssertMatchesPassIff | src/main/java/jp/co/ntt/oss/jboss/byteman/framework/assertion/Assertion.java:71-102 | assertMatches returns normally exactly when every SUCCESS_IF_MATCH matcher matches some collected fragment and no SUCCESS_IF_NOT_MATCH matcher matches any |
| Assertion.AssertMatchesFailures | src/main/java/jp/co/ntt/oss/jboss/byteman/framework/assertion/Assertion.java:88-99 | the two AssertionErrors name the matcher and fragment that caused them |
| Assertion.ScanPollsBounded | src/main/java/jp/co/ntt/oss/jboss/byteman/framework/assertion/Assertion.java:74-75 | hasNext() is called at most once per fragment plus once per iterator |
| Assertion.AllRetiredEmpties | src/main/java/jp/co/ntt/oss/jboss/byteman/framework/assertion/Assertion.java:80-86 | a fragment that retires every matcher leaves none live |
| Assertion.StopsWhenAllFound | src/main/java/jp/co/ntt/oss/jboss/byteman/framework/assertion/Assertion.java:92-94 | when the first fragment retires every matcher, assertMatches returns after one hasNext() |
| Assertion.SingleFragmentCases | src/test/java/jp/co/ntt/oss/jboss/byteman/framework/assertion/AssertionTest.java:60-135 | with one fragment and one matcher, the four combinations of matching and test type pass or fail as the tests expect |
| Assertion.KeywordMatchesIffOccurs | src/main/java/jp/co/ntt/oss/jboss/byteman/framework/assertion/KeywordMatcher.java:46-48 | a keyword matcher matches exactly the lines in which the keyword occurs as a case-sensitive substring |
| Assertion.EmptyKeywordMatchesAll | src/main/java/jp/co/ntt/oss/jboss/byteman/framework/assertion/KeywordMatcher.java:46-48 | the empty keyword matches every line |
| Assertion.KeywordFoundIff | src/main/java/jp/co/ntt/oss/jboss/byteman/framework/assertion/KeywordMatcher.java:56-58 | asserting a KeywordMatcher passes exactly when some collected line contains the keyword |
| Assertion.NoKeywordAbsentIff | src/main/java/jp/co/ntt/oss/jboss/byteman/framework/assertion/NoKeywordMatcher.java:42-45 | asserting a NoKeywordMatcher passes exactly when no collected line contains the keyword |
| Assertion.KeywordIsCaseSensitive | src/test/java/jp/co/ntt/oss/jboss/byteman/framework/assertion/KeywordMatcherTest.java:30-45 | "JBoss" is not found in a line that only says "jboss" |
| Text.TrimEmptyIffBlank | src/main/java/jp/co/ntt/oss/jboss/byteman/framework/util/ResultRepository.java:41 | `trim()` gives "" exactly when every character is at most ' ' |
| Text.ParseIntOfIntToString | src/main/java/jp/co/ntt/oss/jboss/byteman/framework/util/DistributedConfig.java:111 | `Integer.parseInt` reads back every int written in decimal |

## Left out

- Threads, RMI transport and the waiting inside `joinEnlistStart`: each thread is an explicit step, and a remote call is a parameter giving its answer or its exception.
- The Byteman engine and agent, and the rendezvous, countdown, counter, timer, flag and trace primitives: they run in Byteman, outside this code. The helper only forwards them, which `HelperFacade.Forward` models.
- SSH: uploads and downloads are recorded, not performed. A download's failure is a parameter; an upload failure in `deploy` is not modelled.
- JDBC: the connection, statement and result-set handling and their closing are not modelled. The query's column names, its rows and its failure are parameters.
- The Logger: it only writes text.
- The message text of a RuntimeException that wraps another exception is not modelled (it is the cause's `toString()`); only the cause is kept.
- `DistributedConfig.getProperties`: loading the properties file is left out, and the property map is the input to `init`.
- The singleton `DistributedConfig.getConfig()`: the configuration is passed explicitly.
- Reading a script file: `FileInputStream` is a parameter holding the file's text or nothing.
- `System.getProperty` and `Boolean.getBoolean`: the debug flag is a parameter of `GetOptions`.
- Null identifiers and null keys of the concurrent hash maps are not modelled.
- Results.FileLineIterator.HasNext: the file's content is read when the reader is opened, so later changes to the file are not seen.
- `String.toLowerCase` is modelled for ASCII letters only. `trim` and `contains` are modelled on characters, with no locale.
- Path normalisation, `..` and symbolic links: a path is a string and a child's path is its parent's path plus "/" plus its name.
- FileSystem.Disk.Delete: `File.delete` is assumed to succeed; its return value is ignored by the source.
- FileSystem.Disk.Mkdirs: a refused mkdirs creates nothing, although `File.mkdirs` may already have made some of the missing parents before it fails.
- The `FileFilter` of `ResultFileCollector` is a pure function of the path.
- Results.CollectedFiles: the order of `listFiles` is left open, so the contract states which files are collected (each once) and not their order.
- Deploying.Deploy: the order of the node keys and of the listing is left open, so the contract states the set of uploads (each once) and not their order.
- Instrumentor.ReadLines: a '\r' line ending is not treated as a line break.
- Instrumentor.Submit: Byteman's `Submit` client is external. It is modelled as the log of the calls it receives, each with whether the agent accepted it. A rejected call is taken to change nothing on the agent.
- Config.Init: the message of a `NumberFormatException` is not modelled.
- JoinServer.SessionKey: the key is the two decimals with no separator, as written. Keys from times of different widths can collide (`SessionKeyCollision`), but every time between 2001 and 2286 has 13 digits, so the model states injectivity for times of equal width only.
- HelperFacade.FailureMessageIdentifiesOperation and HelperFacade.FailureMessageIdentifiesRule: each fixes one side and shows that the message determines the other. The case where both the rule and the operation differ would need every one of the 35 operation names to be free of ':', and that proof is not part of the model.
- Assertion.AssertMatches: an iterator is given as what it still has to yield when assertMatches starts. The change the reading makes to the iterators themselves is not carried out of the call. `ResultDatabaseCollector.getResult` returns the same one-shot iterators every time, so a second assertMatches over one database collector sees every row as already read. The model states this only for a single iterator (`Database.RowIterator.Next` leaves `hasNext` false).
- Text.ParseInt: it accepts an optional sign and ASCII digits. `Integer.parseInt` also accepts the decimal digits of other Unicode scripts.
- Join identifiers (`DistributedHelper.joinEnlist` and `ControlHost`) are `Object` in the source and strings here. Only their equality matters to the join table.
