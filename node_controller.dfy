/**
 * AbstractNodeController: the controller-side handle on one configured node.
 * It reads the node's settings, keeps the JVM options to pass on, and builds
 * the `-javaagent:` argument that attaches Byteman to the node's JVM.
 * Whether the debug system property is set is a parameter here.
 */
module NodeControl {
  import opened Wrappers
  import opened Exceptions
  import Text
  import Config

  /** The system property that switches the framework's debug log on. */
  const DebugProperty: string := "byteman.framework.debug"
  const BytemanPackagePrefix: string := "org.jboss.byteman."
  /** The agent properties through which a node learns the controller's RMI endpoint. */
  const PropHostname: string := BytemanPackagePrefix + "jp.co.ntt.oss.jboss.byteman.framework.host"
  const PropPort: string := BytemanPackagePrefix + "jp.co.ntt.oss.jboss.byteman.framework.port"

  /** What `StringBuilder.append(String)` writes for a possibly null string. */
  function JavaString(s: Option<string>): string {
    if s.None? then "null" else s.value
  }

  /** The fixed part of the agent argument. */
  function AgentHeader(jar: string, frameworkJar: string, address: string, port: string,
                       rmiHost: string, rmiPort: int): string
  {
    "-javaagent:" + jar + "=sys:" + frameworkJar + ",address:" + address + ",port:" + port
    + ",prop:" + PropHostname + "=" + rmiHost + ",prop:" + PropPort + "=" + Text.IntToString(rmiPort)
  }

  /** One `,script:<path>` per script, in argument order. */
  function ScriptSuffix(scripts: seq<string>): string {
    if |scripts| == 0 then ""
    else ScriptSuffix(scripts[..|scripts| - 1]) + ",script:" + scripts[|scripts| - 1]
  }

  /** The suffix of a concatenation is the concatenation of the suffixes. */
  lemma {:induction false} ScriptSuffixConcat(first: seq<string>, second: seq<string>)
    ensures ScriptSuffix(first + second) == ScriptSuffix(first) + ScriptSuffix(second)
    decreases |second|
  {
    if |second| == 0 {
      assert first + second == first;
    } else {
      var front := second[..|second| - 1];
      assert (first + second)[..|first + second| - 1] == first + front;
      ScriptSuffixConcat(first, front);
    }
  }

  /** A single script contributes exactly `,script:<path>`, so with no scripts there is no suffix. */
  lemma ScriptSuffixOne(script: string)
    ensures ScriptSuffix([script]) == ",script:" + script
  {
    assert [script][..0] == [];
  }

  /** The for loop of getBytemanAgentProperties: `,script:<path>` appended to the builder for each script in turn. */
  method AppendScripts(header: string, scripts: seq<string>) returns (sb: string)
    ensures sb == header + ScriptSuffix(scripts)
  {
    sb := header;
    var i := 0;
    while i < |scripts|
      invariant 0 <= i <= |scripts|
      invariant sb == header + ScriptSuffix(scripts[..i])
    {
      assert scripts[..i + 1][..i] == scripts[..i];
      sb := sb + ",script:" + scripts[i];
      i := i + 1;
    }
    assert scripts[..i] == scripts;
  }

  /** Whatever precedes the scripts, more scripts only extend the text. */
  lemma SuffixExtends(header: string, scripts: seq<string>, more: seq<string>)
    ensures header + ScriptSuffix(scripts + more) == (header + ScriptSuffix(scripts)) + ScriptSuffix(more)
  {
    ScriptSuffixConcat(scripts, more);
  }

  class AbstractNodeController {
    const identifier: string
    /** The controller's configuration (the singleton). */
    const settings: Config.DistributedConfig
    /** This node's configuration. */
    const config: Config.NodeConfig
    var options: Option<string>

    constructor (settings: Config.DistributedConfig, identifier: string)
      requires identifier in settings.nodeConfigs
      ensures this.identifier == identifier && this.settings == settings
      ensures config == settings.nodeConfigs[identifier] && options.None?
    {
      this.identifier := identifier;
      this.settings := settings;
      this.config := settings.nodeConfigs[identifier];
      this.options := None;
    }

    /** getNodeConfig(key): the node's setting, with the "*" node's and the built-in fallbacks. */
    function GetNodeConfig(key: string): Option<string>
      reads this
    {
      Config.NodeGet(settings, config, key)
    }

    /** getNodeConfig(key, defaultValue): the default exactly when the setting is null. */
    function GetNodeConfigOr(key: string, defaultValue: string): (r: string)
      reads this
      ensures GetNodeConfig(key).None? ==> r == defaultValue
      ensures GetNodeConfig(key).Some? ==> r == GetNodeConfig(key).value
    {
      if GetNodeConfig(key).None? then defaultValue else GetNodeConfig(key).value
    }

    method SetOptions(options: Option<string>)
      modifies this
      ensures this.options == options
    {
      this.options := options;
    }

    /** getOptions: the options ("" when unset), then the debug flag when the debug property is true. */
    function GetOptions(debug: bool): (r: string)
      reads this
      ensures var given := if options.None? then "" else options.value;
        |given| <= |r| && r[..|given|] == given &&
        (debug <==> r[|given|..] == " -D" + DebugProperty + "=true") &&
        (!debug ==> r == given)
    {
      var given := if options.None? then "" else options.value;
      var r := given + (if debug then " -D" + DebugProperty + "=true" else "");
      assert r[..|given|] == given;
      r
    }

    /** getBytemanAgentProperties(scripts...) as a value: the two jars are required, the byteman jar first. */
    function AgentPropertiesSpec(scripts: seq<string>): Result<string, Throwable>
      reads this
    {
      var jar := GetNodeConfig(Config.NodeBytemanJar);
      var frameworkJar := GetNodeConfig(Config.NodeBytemanFwJar);
      if jar.None? then Failure(Raise(IllegalState, Config.NodeBytemanJar + " is not defined."))
      else if frameworkJar.None? then Failure(Raise(IllegalState, Config.NodeBytemanFwJar + " is not defined."))
      else
        Success(AgentHeader(jar.value, frameworkJar.value,
                            JavaString(GetNodeConfig(Config.NodeAddress)), JavaString(GetNodeConfig(Config.NodeBytemanPort)),
                            settings.rmiAddress, settings.rmiPort)
                + ScriptSuffix(scripts))
    }

    /**
     * getBytemanAgentProperties: checks both jars, appends the fixed part
     * and then `,script:<path>` for each script in turn.
     */
    method AgentProperties(scripts: seq<string>) returns (r: Result<string, Throwable>)
      ensures r == AgentPropertiesSpec(scripts)
    {
      var bytemanJar := GetNodeConfig(Config.NodeBytemanJar);
      var bytemanFwJar := GetNodeConfig(Config.NodeBytemanFwJar);
      if bytemanJar.None? {
        return Failure(Raise(IllegalState, Config.NodeBytemanJar + " is not defined."));
      }
      if bytemanFwJar.None? {
        return Failure(Raise(IllegalState, Config.NodeBytemanFwJar + " is not defined."));
      }
      var sb := AgentHeader(bytemanJar.value, bytemanFwJar.value,
                            JavaString(GetNodeConfig(Config.NodeAddress)), JavaString(GetNodeConfig(Config.NodeBytemanPort)),
                            settings.rmiAddress, settings.rmiPort);
      sb := AppendScripts(sb, scripts);
      r := Success(sb);
    }

    /** The agent argument fails on a missing byteman jar whatever else is missing, and on a missing framework jar only after that. */
    lemma AgentPropertiesErrors(scripts: seq<string>)
      ensures GetNodeConfig(Config.NodeBytemanJar).None? ==>
        AgentPropertiesSpec(scripts) == Failure(Raise(IllegalState, "node.byteman.jar is not defined."))
      ensures GetNodeConfig(Config.NodeBytemanJar).Some? && GetNodeConfig(Config.NodeBytemanFwJar).None? ==>
        AgentPropertiesSpec(scripts) == Failure(Raise(IllegalState, "node.bytemanframework.jar is not defined."))
      ensures AgentPropertiesSpec(scripts).Success? <==>
        GetNodeConfig(Config.NodeBytemanJar).Some? && GetNodeConfig(Config.NodeBytemanFwJar).Some?
    {
      assert Config.NodeBytemanJar + " is not defined." == "node.byteman.jar is not defined.";
      assert Config.NodeBytemanFwJar + " is not defined." == "node.bytemanframework.jar is not defined.";
    }

    /** Adding scripts only extends the agent argument: the argument for `scripts + more` is the one for `scripts` followed by the suffix for `more`. */
    lemma AgentPropertiesExtend(scripts: seq<string>, more: seq<string>)
      ensures AgentPropertiesSpec(scripts + more).Success? <==> AgentPropertiesSpec(scripts).Success?
      ensures AgentPropertiesSpec(scripts).Success? ==>
        AgentPropertiesSpec(scripts + more).value == AgentPropertiesSpec(scripts).value + ScriptSuffix(more)
    {
      if AgentPropertiesSpec(scripts).Success? {
        var header := AgentHeader(GetNodeConfig(Config.NodeBytemanJar).value, GetNodeConfig(Config.NodeBytemanFwJar).value,
                                  JavaString(GetNodeConfig(Config.NodeAddress)), JavaString(GetNodeConfig(Config.NodeBytemanPort)),
                                  settings.rmiAddress, settings.rmiPort);
        SuffixExtends(header, scripts, more);
      }
    }
  }

  /** new AbstractNodeController(identifier): an identifier with no node configuration is rejected. */
  method NewNodeController(settings: Config.DistributedConfig, identifier: string)
    returns (r: Result<AbstractNodeController, Throwable>)
    ensures r.Failure? <==> identifier !in settings.nodeConfigs
    ensures r.Failure? ==> r.error == Raise(IllegalArgument, identifier + " is not defined.")
    ensures r.Success? ==>
      (fresh(r.value) && r.value.identifier == identifier && r.value.settings == settings &&
       r.value.config == settings.nodeConfigs[identifier] && r.value.options.None?)
  {
    if identifier !in settings.nodeConfigs {
      return Failure(Raise(IllegalArgument, identifier + " is not defined."));
    }
    var controller := new AbstractNodeController(settings, identifier);
    r := Success(controller);
  }

  /** Two scripts render as `,script:/test1.btm,script:/test2.btm`. */
  lemma TwoScriptsSuffix()
    ensures ScriptSuffix(["/test1.btm", "/test2.btm"]) == ",script:/test1.btm,script:/test2.btm"
  {
    ScriptSuffixTwo("/test1.btm", "/test2.btm");
    assert ",script:" + "/test1.btm" == ",script:/test1.btm";
    assert ",script:" + "/test2.btm" == ",script:/test2.btm";
  }

  /** Two scripts give their two `,script:` parts in order. */
  lemma ScriptSuffixTwo(first: string, second: string)
    ensures ScriptSuffix([first, second]) == (",script:" + first) + (",script:" + second)
  {
    ScriptSuffixConcat([first], [second]);
    ScriptSuffixOne(first);
    ScriptSuffixOne(second);
    assert [first] + [second] == [first, second];
  }

  /**
   * Read through init, the agent's address is the node's own
   * `node.address.<id>` property, else the "*" node's, else "null".
   */
  lemma AgentAddressFromProperties(properties: Config.Properties, keys: seq<string>, id: string)
    requires forall k :: k in keys <==> k in properties
    requires Config.Distinct(keys)
    requires Config.InitSpec(properties, keys).Success?
    requires id in Config.InitSpec(properties, keys).value.nodeConfigs
    ensures var settings := Config.InitSpec(properties, keys).value;
      JavaString(Config.NodeGet(settings, settings.nodeConfigs[id], Config.NodeAddress)) ==
        if Config.Join(Config.NodeAddress, id) in properties then properties[Config.Join(Config.NodeAddress, id)]
        else if Config.Join(Config.NodeAddress, Config.AllNodes) in properties then properties[Config.Join(Config.NodeAddress, Config.AllNodes)]
        else "null"
  {
    Config.NodeGetReadsProperties(properties, keys, id, Config.NodeAddress);
    assert Config.IsNodeKey(Config.Join(Config.NodeAddress, id));
    assert Config.IsNodeKey(Config.Join(Config.NodeAddress, Config.AllNodes));
  }
}
