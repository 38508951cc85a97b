/**
 * AbstractDistributedInstrumentor: one Byteman agent client (Submit) per
 * configured node, each wrapped so that the scripts installed through it
 * are remembered and can all be removed again.
 *
 * The agent client is external; it is modelled as the log of the calls it
 * receives. Whether the agent accepts an add or a delete is a parameter
 * (`agentFault`, `deleteFault`); a failed delete is swallowed by the
 * wrapper, which forgets its scripts although the agent still holds them.
 * The node map's iteration order is the parameter `keys`, and the input
 * stream of a script is its text, split into lines by `ReadLines`.
 */
module Instrumentor {
  import opened Wrappers
  import opened Exceptions
  import Text
  import Config
  import Sets

  /** A rule script: its name and its text. */
  datatype ScriptText = ScriptText(fileName: string, text: string)

  /** One call received by a node's agent client; `accepted` says whether it returned normally. */
  datatype AgentCall =
    | Added(scripts: seq<ScriptText>, accepted: bool)
    | Deleted(scripts: seq<ScriptText>, accepted: bool)

  /**
   * What the agent holds from this client: everything accepted since the
   * last accepted delete, in order. A rejected call changes nothing.
   */
  function Installed(calls: seq<AgentCall>): seq<ScriptText> {
    if |calls| == 0 then []
    else
      match calls[|calls| - 1]
      case Added(scripts, accepted) =>
        Installed(calls[..|calls| - 1]) + (if accepted then scripts else [])
      case Deleted(_, accepted) =>
        if accepted then [] else Installed(calls[..|calls| - 1])
  }

  /** The agent client of one node (Byteman's Submit), as the log of the calls it receives. */
  class Submit {
    const address: Option<string>
    const port: int
    var calls: seq<AgentCall>

    constructor (address: Option<string>, port: int)
      ensures this.address == address && this.port == port && calls == []
    {
      this.address := address;
      this.port := port;
      calls := [];
    }

    /** addScripts: the agent either returns normally or raises `agentFault`. */
    method AddScripts(scripts: seq<ScriptText>, agentFault: Option<Throwable>) returns (r: Result<(), Throwable>)
      modifies this
      ensures calls == old(calls) + [Added(scripts, agentFault.None?)]
      ensures agentFault.None? ==> r == Success(())
      ensures agentFault.Some? ==> r == Failure(agentFault.value)
    {
      calls := calls + [Added(scripts, agentFault.None?)];
      r := if agentFault.None? then Success(()) else Failure(agentFault.value);
    }

    /** deleteScripts: the agent either returns normally or raises `deleteFault`. */
    method DeleteScripts(scripts: seq<ScriptText>, deleteFault: Option<Throwable>) returns (r: Result<(), Throwable>)
      modifies this
      ensures calls == old(calls) + [Deleted(scripts, deleteFault.None?)]
      ensures deleteFault.None? ==> r == Success(())
      ensures deleteFault.Some? ==> r == Failure(deleteFault.value)
    {
      calls := calls + [Deleted(scripts, deleteFault.None?)];
      r := if deleteFault.None? then Success(()) else Failure(deleteFault.value);
    }
  }

  /** SubmitWrapper: an agent client and the scripts installed through it. */
  class SubmitWrapper {
    const submit: Submit
    var scripts: seq<ScriptText>

    /** The tracked list is exactly what the agent holds from this client. */
    ghost predicate Tracks()
      reads this, submit
    {
      scripts == Installed(submit.calls)
    }

    constructor (submit: Submit)
      ensures this.submit == submit && scripts == []
    {
      this.submit := submit;
      scripts := [];
    }

    /** addScript: a one-element add; the script is tracked only once the agent has accepted it. */
    method AddScript(script: ScriptText, agentFault: Option<Throwable>) returns (r: Result<(), Throwable>)
      requires Tracks()
      modifies this, submit
      ensures Tracks()
      ensures submit.calls == old(submit.calls) + [Added([script], agentFault.None?)]
      ensures r.Success? <==> agentFault.None?
      ensures r.Failure? ==> r.error == agentFault.value
      ensures scripts == old(scripts) + (if agentFault.None? then [script] else [])
    {
      r := submit.AddScripts([script], agentFault);
      if r.Success? {
        scripts := scripts + [script];
      }
      assert submit.calls[..|submit.calls| - 1] == old(submit.calls);
    }

    /** The wrapper still lists `scripts0` and its agent has received `calls0`. */
    ghost predicate Holds(scripts0: seq<ScriptText>, calls0: seq<AgentCall>)
      reads this, submit
    {
      scripts == scripts0 && submit.calls == calls0
    }

    /** The wrapper has removed `scripts0` from an agent that had received `calls0`, which `accepted` the delete or not. */
    ghost predicate Cleared(scripts0: seq<ScriptText>, calls0: seq<AgentCall>, accepted: bool)
      reads this, submit
    {
      scripts == [] && submit.calls == AfterRemove(calls0, scripts0, accepted)
    }

    /**
     * removeScripts: deletes the tracked scripts when there are any and
     * ignores a failing delete; the list is emptied either way, so it still
     * matches the agent exactly when nothing was tracked or the delete went
     * through.
     */
    method RemoveScripts(deleteFault: Option<Throwable>)
      modifies this, submit
      ensures scripts == []
      ensures submit.calls == AfterRemove(old(submit.calls), old(scripts), deleteFault.None?)
      ensures old(Tracks()) ==> (Tracks() <==> |old(scripts)| == 0 || deleteFault.None?)
    {
      ghost var calls0, scripts0 := submit.calls, scripts;
      if |scripts| > 0 {
        var ignored := submit.DeleteScripts(scripts, deleteFault);
      }
      scripts := [];
      if scripts0 == Installed(calls0) {
        InstalledAfterRemove(calls0, scripts0, deleteFault.None?);
      }
    }
  }

  /** Where a node's agent listens. */
  datatype Endpoint = Endpoint(address: Option<string>, port: int)

  /** The agent endpoint of one node: its address and its Byteman port, which must parse as an int. */
  function NodeEndpoint(settings: Config.DistributedConfig, node: Config.NodeConfig): (r: Result<Endpoint, Throwable>)
    ensures r.Failure? <==>
      Config.NodeGet(settings, node, Config.NodeBytemanPort).None? ||
      Text.ParseInt(Config.NodeGet(settings, node, Config.NodeBytemanPort).value).None?
    ensures r.Failure? ==> r.error == Throwable(NumberFormat, None, None)
    ensures r.Success? ==>
      r.value.address == Config.NodeGet(settings, node, Config.NodeAddress) &&
      Some(r.value.port) == Text.ParseInt(Config.NodeGet(settings, node, Config.NodeBytemanPort).value)
  {
    var port := Config.NodeGet(settings, node, Config.NodeBytemanPort);
    if port.None? || Text.ParseInt(port.value).None? then Failure(Throwable(NumberFormat, None, None))
    else Success(Endpoint(Config.NodeGet(settings, node, Config.NodeAddress), Text.ParseInt(port.value).value))
  }

  /**
   * The endpoints init records, visiting the nodes in `keys` order from
   * `acc`, and the error that stopped it, if any.
   */
  function Targets(settings: Config.DistributedConfig, acc: map<string, Endpoint>, keys: seq<string>)
    : (map<string, Endpoint>, Option<Throwable>)
    requires forall k :: k in keys ==> k in settings.nodeConfigs
    decreases |keys|
  {
    if |keys| == 0 then (acc, None)
    else if keys[0] == Config.AllNodes then Targets(settings, acc, keys[1..])
    else
      match NodeEndpoint(settings, settings.nodeConfigs[keys[0]])
      case Failure(e) => (acc, Some(e))
      case Success(endpoint) => Targets(settings, acc[keys[0] := endpoint], keys[1..])
  }

  /** The node names with a usable endpoint. */
  ghost predicate AllEndpoints(settings: Config.DistributedConfig)
  {
    forall k :: k in settings.nodeConfigs && k != Config.AllNodes ==>
      NodeEndpoint(settings, settings.nodeConfigs[k]).Success?
  }

  /** Init fails exactly when some node other than "*" has a missing or unparseable Byteman port. */
  lemma {:induction false} TargetsSucceedIff(settings: Config.DistributedConfig, acc: map<string, Endpoint>, keys: seq<string>)
    requires forall k :: k in keys ==> k in settings.nodeConfigs
    ensures Targets(settings, acc, keys).1.None? <==>
      forall i :: 0 <= i < |keys| && keys[i] != Config.AllNodes ==>
        NodeEndpoint(settings, settings.nodeConfigs[keys[i]]).Success?
    ensures Targets(settings, acc, keys).1.Some? ==>
      Targets(settings, acc, keys).1.value == Throwable(NumberFormat, None, None)
    decreases |keys|
  {
    if |keys| > 0 {
      var rest := keys[1..];
      if keys[0] == Config.AllNodes || NodeEndpoint(settings, settings.nodeConfigs[keys[0]]).Success? {
        var next := if keys[0] == Config.AllNodes then acc
                    else acc[keys[0] := NodeEndpoint(settings, settings.nodeConfigs[keys[0]]).value];
        TargetsSucceedIff(settings, next, rest);
        assert forall i :: 1 <= i < |keys| ==> keys[i] == rest[i - 1];
      }
    }
  }

  /** On success, init records one endpoint per node other than "*", and only those. */
  lemma {:induction false} TargetsContent(settings: Config.DistributedConfig, acc: map<string, Endpoint>, keys: seq<string>, k: string)
    requires forall k :: k in keys ==> k in settings.nodeConfigs
    requires Targets(settings, acc, keys).1.None?
    ensures k in Targets(settings, acc, keys).0 <==> k in acc || (k in keys && k != Config.AllNodes)
    ensures k in keys && k != Config.AllNodes ==>
      NodeEndpoint(settings, settings.nodeConfigs[k]).Success? &&
      Targets(settings, acc, keys).0[k] == NodeEndpoint(settings, settings.nodeConfigs[k]).value
    ensures k !in keys && k in acc ==> Targets(settings, acc, keys).0[k] == acc[k]
    decreases |keys|
  {
    if |keys| > 0 {
      var rest := keys[1..];
      assert k in keys <==> k == keys[0] || k in rest;
      if keys[0] == Config.AllNodes {
        TargetsContent(settings, acc, rest, k);
      } else {
        var endpoint := NodeEndpoint(settings, settings.nodeConfigs[keys[0]]).value;
        TargetsContent(settings, acc[keys[0] := endpoint], rest, k);
      }
    }
  }

  /** init over all the nodes: the submit map's domain is every node but "*", each with its own endpoint. */
  lemma InitEndpoints(settings: Config.DistributedConfig, keys: seq<string>, k: string)
    requires forall k :: k in keys <==> k in settings.nodeConfigs
    requires AllEndpoints(settings)
    ensures Targets(settings, map[], keys).1.None?
    ensures k in Targets(settings, map[], keys).0 <==> k in settings.nodeConfigs && k != Config.AllNodes
    ensures k in Targets(settings, map[], keys).0 ==>
      NodeEndpoint(settings, settings.nodeConfigs[k]).Success? &&
      Targets(settings, map[], keys).0[k] == NodeEndpoint(settings, settings.nodeConfigs[k]).value
  {
    TargetsSucceedIff(settings, map[], keys);
    TargetsContent(settings, map[], keys, k);
  }

  /** 9091 parses as 9091. */
  lemma ParseDefaultBytemanPort()
    ensures Text.ParseInt("9091") == Some(9091)
  {
    Text.ParseIntOfIntToString(9091);
    assert Text.NatToString(9) == "9";
    assert Text.NatToString(90) == "90";
    assert Text.NatToString(909) == "909";
    assert Text.NatToString(9091) == "9091";
  }

  /**
   * Read through the configuration: a node with no `node.byteman.port.<id>`
   * and no `node.byteman.port.*` property gets an agent on port 9091.
   */
  lemma DefaultAgentPort(properties: Config.Properties, keys: seq<string>, id: string)
    requires forall k :: k in keys <==> k in properties
    requires Config.Distinct(keys)
    requires Config.InitSpec(properties, keys).Success?
    requires id in Config.InitSpec(properties, keys).value.nodeConfigs
    requires Config.Join(Config.NodeBytemanPort, id) !in properties
    requires Config.Join(Config.NodeBytemanPort, Config.AllNodes) !in properties
    ensures var settings := Config.InitSpec(properties, keys).value;
      NodeEndpoint(settings, settings.nodeConfigs[id]).Success? &&
      NodeEndpoint(settings, settings.nodeConfigs[id]).value.port == 9091
  {
    Config.NodeGetReadsProperties(properties, keys, id, Config.NodeBytemanPort);
    assert Config.DefaultValue(Config.NodeBytemanPort) == Some("9091");
    ParseDefaultBytemanPort();
  }

  /** The script text built from a stream's lines: each line followed by "\n". */
  function ScriptBody(lines: seq<string>): string {
    if |lines| == 0 then ""
    else ScriptBody(lines[..|lines| - 1]) + lines[|lines| - 1] + "\n"
  }

  lemma {:induction false} ScriptBodyConcat(first: seq<string>, second: seq<string>)
    ensures ScriptBody(first + second) == ScriptBody(first) + ScriptBody(second)
    decreases |second|
  {
    if |second| == 0 {
      assert first + second == first;
    } else {
      var front := second[..|second| - 1];
      assert (first + second)[..|first + second| - 1] == first + front;
      ScriptBodyConcat(first, front);
    }
  }

  /** The lines a reader yields for `text`, split at '\n'; a final newline ends the last line. */
  function ReadLines(text: string): (lines: seq<string>)
    ensures forall i :: 0 <= i < |lines| ==> '\n' !in lines[i]
    decreases |text|
  {
    if |text| == 0 then []
    else
      var i := Text.IndexOf(text, '\n');
      if i == |text| then [text]
      else [text[..i]] + ReadLines(text[i + 1..])
  }

  /** A single line contributes itself and a newline. */
  lemma ScriptBodyOne(line: string)
    ensures ScriptBody([line]) == line + "\n"
  {
    assert [line][..0] == [];
  }

  /** The text a reader's lines come back to: a newline is added at the end when there was none. */
  function Terminated(text: string): string {
    text + (if |text| > 0 && text[|text| - 1] != '\n' then "\n" else "")
  }

  /** Terminating a text that has a newline at position `i` terminates what follows it. */
  lemma TerminatedAfterNewline(text: string, i: nat)
    requires i < |text| && text[i] == '\n'
    ensures Terminated(text) == text[..i] + "\n" + Terminated(text[i + 1..])
  {
    var rest := text[i + 1..];
    assert text == text[..i] + "\n" + rest;
    if |rest| > 0 {
      assert rest[|rest| - 1] == text[|text| - 1];
    }
  }

  /**
   * Reading a stream and re-joining its lines gives the stream's text back,
   * with a newline added at the end when it had none.
   */
  lemma {:induction false} ScriptBodyOfReadLines(text: string)
    ensures ScriptBody(ReadLines(text)) == Terminated(text)
    decreases |text|
  {
    if |text| > 0 {
      var i := Text.IndexOf(text, '\n');
      if i == |text| {
        ScriptBodyOne(text);
      } else {
        var rest := text[i + 1..];
        ScriptBodyOfReadLines(rest);
        ScriptBodyConcat([text[..i]], ReadLines(rest));
        ScriptBodyOne(text[..i]);
        TerminatedAfterNewline(text, i);
      }
    }
  }

  /** Joining lines without newlines and reading them back gives the same lines. */
  lemma {:induction false} ReadLinesOfScriptBody(lines: seq<string>)
    requires forall i :: 0 <= i < |lines| ==> '\n' !in lines[i]
    ensures ReadLines(ScriptBody(lines)) == lines
    decreases |lines|
  {
    if |lines| > 0 {
      var rest := lines[1..];
      ReadLinesOfScriptBody(rest);
      ScriptBodyConcat([lines[0]], rest);
      assert [lines[0]] + rest == lines;
      ScriptBodyOne(lines[0]);
      var text := ScriptBody(lines);
      assert text == lines[0] + "\n" + ScriptBody(rest);
      assert text[|lines[0]|] == '\n';
      assert forall j :: 0 <= j < |lines[0]| ==> text[j] == lines[0][j];
      var i := Text.IndexOf(text, '\n');
      assert i == |lines[0]|;
      assert text[..i] == lines[0];
      assert text[i + 1..] == ScriptBody(rest);
    }
  }

  /** The reading loop of the stream variant: append each line, then "\n". */
  method ReadScript(lines: seq<string>) returns (text: string)
    ensures text == ScriptBody(lines)
  {
    text := "";
    var i := 0;
    while i < |lines|
      invariant 0 <= i <= |lines|
      invariant text == ScriptBody(lines[..i])
    {
      assert lines[..i + 1][..i] == lines[..i];
      text := text + lines[i];
      text := text + "\n";
      i := i + 1;
    }
    assert lines[..i] == lines;
  }

  /** What removeScripts leaves in an agent's log: a delete of the tracked scripts, if there were any. */
  function AfterRemove(calls: seq<AgentCall>, scripts: seq<ScriptText>, accepted: bool): seq<AgentCall> {
    calls + (if |scripts| > 0 then [Deleted(scripts, accepted)] else [])
  }

  /**
   * After removeScripts the agent holds nothing from the wrapper exactly
   * when nothing was tracked or the agent accepted the delete; after a
   * rejected delete it still holds every tracked script.
   */
  lemma InstalledAfterRemove(calls: seq<AgentCall>, scripts: seq<ScriptText>, accepted: bool)
    requires scripts == Installed(calls)
    ensures Installed(AfterRemove(calls, scripts, accepted)) == [] <==> accepted || |scripts| == 0
    ensures !accepted ==> Installed(AfterRemove(calls, scripts, accepted)) == scripts
  {
    var after := AfterRemove(calls, scripts, accepted);
    if |scripts| > 0 {
      assert after[|after| - 1] == Deleted(scripts, accepted);
      assert after[..|after| - 1] == calls;
    } else {
      assert after == calls;
    }
  }

  class AbstractDistributedInstrumentor {
    /** Whether `submits` is non-null: it is null until init() assigns it. */
    var initialized: bool
    var submits: map<string, SubmitWrapper>
    /** The wrappers and agent clients reachable from the map. */
    ghost var Repr: set<object>

    /** Every wrapper and client is in the footprint, and none is shared between two nodes. */
    ghost predicate Shape()
      reads this
    {
      this !in Repr
      && (forall k :: k in submits ==> submits[k] in Repr && submits[k].submit in Repr)
      && Disjoint(submits)
    }

    /** No wrapper and no agent client serves two nodes. */
    static ghost predicate Disjoint(wrappers: map<string, SubmitWrapper>) {
      forall k1, k2 :: k1 in wrappers && k2 in wrappers && k1 != k2 ==>
        wrappers[k1] != wrappers[k2] && wrappers[k1].submit != wrappers[k2].submit
    }

    /** ... and every wrapper's list is exactly what its agent holds. */
    ghost predicate Valid()
      reads this, Repr
    {
      Shape() && (!initialized ==> submits == map[]) && forall k :: k in submits ==> submits[k].Tracks()
    }

    /** Where each node's agent listens. */
    function Endpoints(): map<string, Endpoint>
      reads this
    {
      EndpointsOf(submits)
    }

    /** The agents' addresses and ports are fixed when they are made, so the endpoints depend on the map alone. */
    static function EndpointsOf(wrappers: map<string, SubmitWrapper>): map<string, Endpoint> {
      map k | k in wrappers :: Endpoint(wrappers[k].submit.address, wrappers[k].submit.port)
    }

    /** A new instrumentor has no submit map until init(). */
    constructor ()
      ensures Valid() && !initialized && submits == map[] && Repr == {}
    {
      initialized := false;
      submits := map[];
      Repr := {};
    }

    /** Wrappers with nothing installed and agents that have received nothing. */
    ghost predicate Untouched()
      reads this, Repr
    {
      forall k :: k in submits ==>
        (submits[k] in Repr && submits[k].submit in Repr && submits[k].scripts == [] && submits[k].submit.calls == [])
    }

    /**
     * init: a fresh client and wrapper for every node but "*", at the
     * node's address and Byteman port; an unparseable port stops it, leaving
     * the entries made so far.
     */
    method Init(settings: Config.DistributedConfig, keys: seq<string>) returns (r: Result<(), Throwable>)
      requires forall k :: k in keys ==> k in settings.nodeConfigs
      modifies this
      ensures Valid() && fresh(Repr) && initialized
      ensures forall k :: k in submits ==> submits[k].scripts == [] && submits[k].submit.calls == []
      ensures (Endpoints(), if r.Failure? then Some(r.error) else None) == Targets(settings, map[], keys)
    {
      initialized := true;
      submits := map[];
      Repr := {};
      var i := 0;
      while i < |keys|
        invariant 0 <= i <= |keys|
        invariant Shape() && Untouched() && fresh(Repr) && initialized
        invariant Targets(settings, map[], keys) == Targets(settings, Endpoints(), keys[i..])
      {
        var key := keys[i];
        assert keys[i..][1..] == keys[i + 1..];
        if key == Config.AllNodes {
          i := i + 1;
          continue;
        }
        var config := settings.nodeConfigs[key];
        var address := Config.NodeGet(settings, config, Config.NodeAddress);
        var portText := Config.NodeGet(settings, config, Config.NodeBytemanPort);
        if portText.None? {
          r := Failure(Throwable(NumberFormat, None, None));
          UntouchedIsValid();
          return;
        }
        var port := Text.ParseInt(portText.value);
        if port.None? {
          r := Failure(Throwable(NumberFormat, None, None));
          UntouchedIsValid();
          return;
        }
        assert NodeEndpoint(settings, config) == Success(Endpoint(address, port.value));
        Put(key, address, port.value);
        i := i + 1;
      }
      r := Success(());
      UntouchedIsValid();
    }

    /** One step of init: a fresh client and wrapper under `key`. */
    method Put(key: string, address: Option<string>, port: int)
      requires Shape() && Untouched()
      modifies this
      ensures Shape() && Untouched() && fresh(Repr - old(Repr)) && initialized == old(initialized)
      ensures Endpoints() == old(Endpoints())[key := Endpoint(address, port)]
    {
      var submit := new Submit(address, port);
      var wrapper := new SubmitWrapper(submit);
      ghost var before := submits;
      assert forall k :: k in before ==> before[k] != wrapper && before[k].submit != submit;
      DisjointPut(before, key, wrapper);
      submits := submits[key := wrapper];
      Repr := Repr + {wrapper, submit};
      forall k | k in submits
        ensures submits[k] in Repr && submits[k].submit in Repr && submits[k].scripts == [] && submits[k].submit.calls == []
      {
        if k != key {
          assert submits[k] == before[k];
        }
      }
      assert EndpointsOf(submits) == EndpointsOf(before)[key := Endpoint(address, port)];
    }

    /** A wrapper and client used by no other node keep the map disjoint. */
    static lemma DisjointPut(wrappers: map<string, SubmitWrapper>, key: string, wrapper: SubmitWrapper)
      requires Disjoint(wrappers)
      requires forall k :: k in wrappers ==> wrappers[k] != wrapper && wrappers[k].submit != wrapper.submit
      ensures Disjoint(wrappers[key := wrapper])
    {
      var updated := wrappers[key := wrapper];
      forall k1, k2 | k1 in updated && k2 in updated && k1 != k2
        ensures updated[k1] != updated[k2] && updated[k1].submit != updated[k2].submit
      {
        if k1 != key && k2 != key {
          assert updated[k1] == wrappers[k1] && updated[k2] == wrappers[k2];
        }
      }
    }

    lemma UntouchedIsValid()
      requires Shape() && Untouched() && initialized
      ensures Valid()
      ensures forall k :: k in submits ==> submits[k].scripts == [] && submits[k].submit.calls == []
    {
    }

    /**
     * installScript(identifier, name, text): before init the null map
     * raises NullPointerException; an unknown node is rejected; in both
     * cases nothing changes.
     */
    method InstallScript(identifier: string, scriptName: string, scriptText: string, agentFault: Option<Throwable>)
      returns (r: Result<(), Throwable>)
      requires Valid()
      modifies Repr
      ensures Valid() && submits == old(submits)
      ensures !initialized ==> r == Failure(Throwable(NullPointer, None, None))
      ensures initialized && identifier !in submits ==>
        r == Failure(Raise(IllegalArgument, "[" + identifier + "] is not defined."))
      ensures identifier in submits ==>
        (r.Success? <==> agentFault.None?) && (r.Failure? ==> r.error == agentFault.value) &&
        var w := submits[identifier];
        w.submit.calls == old(w.submit.calls) + [Added([ScriptText(scriptName, scriptText)], agentFault.None?)] &&
        w.scripts == old(w.scripts) + (if agentFault.None? then [ScriptText(scriptName, scriptText)] else [])
      ensures forall k :: k in submits && k != identifier ==>
        submits[k].scripts == old(submits[k].scripts) && submits[k].submit.calls == old(submits[k].submit.calls)
    {
      if !initialized {
        return Failure(Throwable(NullPointer, None, None));
      }
      if identifier !in submits {
        return Failure(Raise(IllegalArgument, "[" + identifier + "] is not defined."));
      }
      var wrapper := submits[identifier];
      r := wrapper.AddScript(ScriptText(scriptName, scriptText), agentFault);
    }

    /** installScript(identifier, name, stream): the script text is the stream's lines, each followed by "\n". */
    method InstallScriptStream(identifier: string, scriptName: string, stream: string, agentFault: Option<Throwable>)
      returns (r: Result<(), Throwable>)
      requires Valid()
      modifies Repr
      ensures Valid() && submits == old(submits)
      ensures !initialized ==> r == Failure(Throwable(NullPointer, None, None))
      ensures initialized && identifier !in submits ==>
        r == Failure(Raise(IllegalArgument, "[" + identifier + "] is not defined."))
      ensures identifier in submits ==>
        (r.Success? <==> agentFault.None?) &&
        var w := submits[identifier];
        w.submit.calls == old(w.submit.calls) + [Added([ScriptText(scriptName, ScriptBody(ReadLines(stream)))], agentFault.None?)]
      ensures forall k :: k in submits && k != identifier ==>
        submits[k].scripts == old(submits[k].scripts) && submits[k].submit.calls == old(submits[k].submit.calls)
    {
      var text := ReadScript(ReadLines(stream));
      r := InstallScript(identifier, scriptName, text, agentFault);
    }

    /**
     * installScript(identifier, filePath): the file is opened first, so a
     * missing file fails before the node is looked up.
     */
    method InstallScriptFile(identifier: string, filePath: string, file: Option<string>, agentFault: Option<Throwable>)
      returns (r: Result<(), Throwable>)
      requires Valid()
      modifies Repr
      ensures Valid() && submits == old(submits)
      ensures file.None? ==>
        r == Failure(Throwable(FileNotFound, None, None)) &&
        forall k :: k in submits ==>
          submits[k].scripts == old(submits[k].scripts) && submits[k].submit.calls == old(submits[k].submit.calls)
      ensures file.Some? && !initialized ==> r == Failure(Throwable(NullPointer, None, None))
      ensures file.Some? && initialized && identifier !in submits ==>
        r == Failure(Raise(IllegalArgument, "[" + identifier + "] is not defined."))
      ensures file.Some? && identifier in submits ==>
        (r.Success? <==> agentFault.None?) &&
        var w := submits[identifier];
        w.submit.calls == old(w.submit.calls) + [Added([ScriptText(filePath, ScriptBody(ReadLines(file.value)))], agentFault.None?)]
      ensures forall k :: k in submits && k != identifier ==>
        submits[k].scripts == old(submits[k].scripts) && submits[k].submit.calls == old(submits[k].submit.calls)
    {
      if file.None? {
        return Failure(Throwable(FileNotFound, None, None));
      }
      r := InstallScriptStream(identifier, filePath, file.value, agentFault);
    }

    /**
     * destroy: before init the null map raises NullPointerException and
     * nothing changes. Otherwise every wrapper removes its scripts, then the
     * map is emptied. `deleteFaults` holds the exception a node's agent
     * raises on the delete; removeScripts swallows it, so that agent keeps
     * the scripts the wrapper forgets.
     */
    method Destroy(deleteFaults: map<string, Throwable>) returns (r: Result<(), Throwable>)
      requires Valid()
      modifies this, Repr
      ensures Valid() && initialized == old(initialized)
      ensures !initialized ==> r == Failure(Throwable(NullPointer, None, None)) && submits == map[]
      ensures initialized ==> r == Success(()) && submits == map[]
      ensures forall k :: k in old(submits) ==>
        old(submits)[k].scripts == [] &&
        old(submits)[k].submit.calls == AfterRemove(old(submits[k].submit.calls), old(submits[k].scripts), k !in deleteFaults) &&
        Installed(old(submits)[k].submit.calls) == (if k in deleteFaults then old(submits[k].scripts) else [])
    {
      if !initialized {
        return Failure(Throwable(NullPointer, None, None));
      }
      RemoveAndClear(deleteFaults);
      r := Success(());
    }

    /** destroy() once init has run: the removal loop, then the emptied map. */
    method RemoveAndClear(deleteFaults: map<string, Throwable>)
      requires Valid() && initialized
      modifies this, Repr
      ensures Valid() && initialized && submits == map[]
      ensures forall k :: k in old(submits) ==>
        old(submits)[k].scripts == [] &&
        old(submits)[k].submit.calls == AfterRemove(old(submits[k].submit.calls), old(submits[k].scripts), k !in deleteFaults) &&
        Installed(old(submits)[k].submit.calls) == (if k in deleteFaults then old(submits[k].scripts) else [])
    {
      var wrappers := submits;
      RemoveTracked(wrappers, Repr, deleteFaults);
      submits := map[];
      Repr := {};
    }

    /**
     * The removal loop of destroy over wrappers that each list what their
     * agent holds: afterwards each list is empty, and each agent holds
     * nothing exactly when its delete went through.
     */
    static method RemoveTracked(wrappers: map<string, SubmitWrapper>, ghost repr: set<object>, deleteFaults: map<string, Throwable>)
      requires Disjoint(wrappers)
      requires forall k :: k in wrappers ==> wrappers[k] in repr && wrappers[k].submit in repr && wrappers[k].Tracks()
      modifies repr
      ensures forall k :: k in wrappers ==>
        wrappers[k].scripts == [] &&
        wrappers[k].submit.calls == AfterRemove(old(wrappers[k].submit.calls), old(wrappers[k].scripts), k !in deleteFaults) &&
        Installed(wrappers[k].submit.calls) == (if k in deleteFaults then old(wrappers[k].scripts) else [])
    {
      ghost var scripts0 := map k | k in wrappers :: wrappers[k].scripts;
      ghost var calls0 := map k | k in wrappers :: wrappers[k].submit.calls;
      RemoveAll(wrappers, repr, scripts0, calls0, deleteFaults);
      InstalledAfterRemoveAll(wrappers, scripts0, calls0, deleteFaults);
    }

    /** Every agent whose delete went through holds nothing; every other one still holds what its wrapper listed. */
    static lemma InstalledAfterRemoveAll(wrappers: map<string, SubmitWrapper>, scripts0: map<string, seq<ScriptText>>,
                                         calls0: map<string, seq<AgentCall>>, deleteFaults: map<string, Throwable>)
      requires forall k :: k in wrappers ==> k in scripts0 && k in calls0 && scripts0[k] == Installed(calls0[k])
      requires forall k :: k in wrappers ==> wrappers[k].Cleared(scripts0[k], calls0[k], k !in deleteFaults)
      ensures forall k :: k in wrappers ==> Installed(wrappers[k].submit.calls) == (if k in deleteFaults then scripts0[k] else [])
    {
      forall k | k in wrappers
        ensures Installed(wrappers[k].submit.calls) == (if k in deleteFaults then scripts0[k] else [])
      {
        InstalledAfterRemove(calls0[k], scripts0[k], k !in deleteFaults);
      }
    }

    /** The removal loop of destroy: every wrapper, in some order, removes its scripts. */
    static method RemoveAll(wrappers: map<string, SubmitWrapper>, ghost repr: set<object>,
                            ghost scripts0: map<string, seq<ScriptText>>, ghost calls0: map<string, seq<AgentCall>>,
                            deleteFaults: map<string, Throwable>)
      requires Disjoint(wrappers)
      requires forall k :: k in wrappers ==> wrappers[k] in repr && wrappers[k].submit in repr
      requires forall k :: k in wrappers ==> k in scripts0 && k in calls0 && wrappers[k].Holds(scripts0[k], calls0[k])
      modifies repr
      ensures forall k :: k in wrappers ==> wrappers[k].Cleared(scripts0[k], calls0[k], k !in deleteFaults)
    {
      var remaining := wrappers.Keys;
      while remaining != {}
        invariant remaining <= wrappers.Keys
        invariant forall k :: k in wrappers && k !in remaining ==> wrappers[k].Cleared(scripts0[k], calls0[k], k !in deleteFaults)
        invariant forall k :: k in remaining ==> wrappers[k].Holds(scripts0[k], calls0[k])
        decreases |remaining|
      {
        var k :| k in remaining;
        ClearNode(k, remaining, wrappers, scripts0, calls0, deleteFaults);
        Sets.SubsetSmaller(remaining - {k}, remaining, k);
        remaining := remaining - {k};
      }
      assert forall k :: k !in remaining;
    }

    /**
     * One step of the removal loop: node `k`'s wrapper removes its scripts,
     * its agent raising `deleteFaults[k]` if there is one; every other node
     * is left as it was.
     */
    static method ClearNode(k: string, ghost remaining: set<string>, wrappers: map<string, SubmitWrapper>,
                            ghost scripts0: map<string, seq<ScriptText>>, ghost calls0: map<string, seq<AgentCall>>,
                            deleteFaults: map<string, Throwable>)
      requires Disjoint(wrappers) && k in remaining && remaining <= wrappers.Keys
      requires forall j :: j in wrappers ==> j in scripts0 && j in calls0
      requires forall j :: j in wrappers && j !in remaining ==> wrappers[j].Cleared(scripts0[j], calls0[j], j !in deleteFaults)
      requires forall j :: j in remaining ==> wrappers[j].Holds(scripts0[j], calls0[j])
      modifies wrappers[k], wrappers[k].submit
      ensures forall j :: j in wrappers && j !in remaining - {k} ==> wrappers[j].Cleared(scripts0[j], calls0[j], j !in deleteFaults)
      ensures forall j :: j in remaining - {k} ==> wrappers[j].Holds(scripts0[j], calls0[j])
    {
      wrappers[k].RemoveScripts(if k in deleteFaults then Some(deleteFaults[k]) else None);
    }
  }
}
