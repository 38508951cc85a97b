/**
 * DistributedConfig: the controller's settings, read from a flat property
 * map. Keys starting with "node." feed per-node configurations: the text
 * after the key's last '.' names the node, and the rest of the key is the
 * setting's name within that node. A node's value falls back to the "*"
 * node's value and then to a built-in default.
 */
module Config {
  import opened Wrappers
  import opened Exceptions
  import Text
  import Sets

  const ControllerRmiAddress: string := "controller.rmi.address"
  const ControllerRmiPort: string := "controller.rmi.port"
  const ControllerResultDir: string := "controller.result.dir"
  const DeployDestination: string := "deployment.destination"
  const NodeAddress: string := "node.address"
  const NodeBytemanPort: string := "node.byteman.port"
  const NodeBytemanJar: string := "node.byteman.jar"
  const NodeBytemanFwJar: string := "node.bytemanframework.jar"
  /** The pseudo-node whose settings every node inherits. */
  const AllNodes: string := "*"

  /** The built-in defaults: 1099 for the controller's RMI port, 9091 for a node's Byteman port. */
  function DefaultValue(key: string): Option<string> {
    if key == ControllerRmiPort then Some("1099")
    else if key == NodeBytemanPort then Some("9091")
    else None
  }

  type Properties = map<string, string>

  /** `key.startsWith("node.")`. */
  predicate IsNodeKey(key: string) {
    "node." <= key
  }

  /**
   * getIdentifier: `key.substring(key.lastIndexOf('.') + 1)`, the text after
   * the last '.', or the whole key when it has none.
   */
  function Identifier(key: string): (id: string)
    ensures '.' !in id
    ensures |id| <= |key| && key[|key| - |id|..] == id
    ensures |id| < |key| <==> '.' in key
    ensures |id| < |key| ==> key[|key| - |id| - 1] == '.'
    decreases |key|
  {
    if |key| == 0 then ""
    else if key[|key| - 1] == '.' then ""
    else
      var front := key[..|key| - 1];
      var id := Identifier(front) + [key[|key| - 1]];
      assert key == front + [key[|key| - 1]];
      id
  }

  /** A node key with its ".<identifier>" suffix stripped: the setting's name within the node. */
  function ConfigKey(key: string): string
    requires IsNodeKey(key)
  {
    assert key[4] == '.';
    key[..|key| - |Identifier(key)| - 1]
  }

  /** The property key of setting `configKey` for node `id`. */
  function Join(configKey: string, id: string): string {
    configKey + "." + id
  }

  /** A node key splits back into its setting name and node identifier. */
  lemma NodeKeySplits(key: string)
    requires IsNodeKey(key)
    ensures Join(ConfigKey(key), Identifier(key)) == key
  {
    assert key[4] == '.';
    var id := Identifier(key);
    assert key == key[..|key| - |id| - 1] + [key[|key| - |id| - 1]] + key[|key| - |id|..];
  }

  /** The identifier of a text ending in '.' followed by dot-free `id` is `id`: a longer one would hold that '.', a shorter one would stop at a '.' inside `id`. */
  lemma IdentifierAfterDot(prefix: string, id: string)
    requires |prefix| > 0 && prefix[|prefix| - 1] == '.'
    requires '.' !in id
    ensures Identifier(prefix + id) == id
  {
    var key := prefix + id;
    var r := Identifier(key);
    assert key[|key| - |id|..] == id;
  }

  /** Joining a setting name with a dot-free identifier gives a key whose identifier and setting name are those two. */
  lemma IdentifierOfJoin(configKey: string, id: string)
    requires '.' !in id
    ensures Identifier(Join(configKey, id)) == id
    ensures IsNodeKey(Join(configKey, id)) ==> ConfigKey(Join(configKey, id)) == configKey
  {
    var prefix := configKey + ".";
    assert Join(configKey, id) == prefix + id;
    IdentifierAfterDot(prefix, id);
    assert prefix[..|configKey|] == configKey;
    assert (prefix + id)[..|configKey|] == configKey;
  }

  /** DistributedNodeConfig: one node's settings. */
  datatype NodeConfig = NodeConfig(configs: map<string, string>) {
    function Put(key: string, value: string): NodeConfig {
      NodeConfig(configs[key := value])
    }

    predicate Contains(key: string) {
      key in configs
    }
  }

  /** The settings init leaves in a DistributedConfig. */
  datatype DistributedConfig = DistributedConfig(
    rmiAddress: string,
    rmiPort: int,
    resultDir: Option<string>,
    deploymentDestination: Option<string>,
    nodeConfigs: map<string, NodeConfig>)

  function Property(properties: Properties, key: string): Option<string> {
    if key in properties then Some(properties[key]) else None
  }

  function MissingAddress(id: string): Throwable {
    Raise(IllegalState, NodeAddress + "." + id + " is not defined.")
  }

  /** One pass of init's loop: a node key files its value under its node, creating the node's config on first sight. */
  function AddNodeKey(properties: Properties, nodes: map<string, NodeConfig>, key: string): Result<map<string, NodeConfig>, Throwable>
    requires key in properties
  {
    if !IsNodeKey(key) then Success(nodes)
    else
      var id := Identifier(key);
      if id !in nodes && id != AllNodes && Join(NodeAddress, id) !in properties then Failure(MissingAddress(id))
      else
        var node := if id in nodes then nodes[id] else NodeConfig(map[]);
        Success(nodes[id := node.Put(ConfigKey(key), properties[key])])
  }

  /** init's loop over the property names, in iteration order. */
  function AddNodeKeys(properties: Properties, nodes: map<string, NodeConfig>, keys: seq<string>): Result<map<string, NodeConfig>, Throwable>
    requires forall k :: k in keys ==> k in properties
    decreases |keys|
  {
    if |keys| == 0 then Success(nodes)
    else
      match AddNodeKey(properties, nodes, keys[0])
      case Failure(e) => Failure(e)
      case Success(next) => AddNodeKeys(properties, next, keys[1..])
  }

  /** `getProperty("controller.rmi.port", "1099")`. */
  function PortText(properties: Properties): string {
    if ControllerRmiPort in properties then properties[ControllerRmiPort] else DefaultValue(ControllerRmiPort).value
  }

  /** The loop's nodes do not count as a setup when there are none, or only "*". */
  predicate NoRealNode(nodes: map<string, NodeConfig>) {
    |nodes| == 0 || (|nodes| == 1 && AllNodes in nodes)
  }

  const NoNodeDefined: Throwable := Raise(IllegalState, "The setup of the node is not defined at all.")

  /**
   * init(properties): `keys` is the order in which stringPropertyNames()
   * yields the property names.
   */
  function InitSpec(properties: Properties, keys: seq<string>): Result<DistributedConfig, Throwable>
    requires forall k :: k in keys <==> k in properties
  {
    if ControllerRmiAddress !in properties then
      Failure(Raise(IllegalState, ControllerRmiAddress + " is not defined."))
    else
      match Text.ParseInt(PortText(properties))
      case None => Failure(Throwable(NumberFormat, None, None))
      case Some(port) =>
        match AddNodeKeys(properties, map[], keys)
        case Failure(e) => Failure(e)
        case Success(nodes) =>
          if NoRealNode(nodes) then Failure(NoNodeDefined)
          else Success(DistributedConfig(properties[ControllerRmiAddress], port,
                                         Property(properties, ControllerResultDir),
                                         Property(properties, DeployDestination), nodes))
  }

  /**
   * init: checks the RMI address, parses the RMI port, collects the node
   * configurations, and finally insists on a node other than "*".
   */
  method Init(properties: Properties, keys: seq<string>) returns (r: Result<DistributedConfig, Throwable>)
    requires forall k :: k in keys <==> k in properties
    ensures r == InitSpec(properties, keys)
  {
    if ControllerRmiAddress !in properties {
      return Failure(Raise(IllegalState, ControllerRmiAddress + " is not defined."));
    }
    var rmiAddress := properties[ControllerRmiAddress];
    var rmiPort := Text.ParseInt(PortText(properties));
    if rmiPort.None? {
      return Failure(Throwable(NumberFormat, None, None));
    }
    var resultDir := Property(properties, ControllerResultDir);
    var deploymentDestination := Property(properties, DeployDestination);
    var nodeConfigs := CollectNodeConfigs(properties, keys);
    if nodeConfigs.Failure? {
      return Failure(nodeConfigs.error);
    }
    if |nodeConfigs.value| == 0 || (|nodeConfigs.value| == 1 && AllNodes in nodeConfigs.value) {
      return Failure(NoNodeDefined);
    }
    r := Success(DistributedConfig(rmiAddress, rmiPort.value, resultDir, deploymentDestination, nodeConfigs.value));
  }

  /**
   * init's loop: walks the property names, creating a node's configuration
   * the first time one of its keys is seen (after checking its address) and
   * filing each node key's value in it.
   */
  method CollectNodeConfigs(properties: Properties, keys: seq<string>) returns (r: Result<map<string, NodeConfig>, Throwable>)
    requires forall k :: k in keys ==> k in properties
    ensures r == AddNodeKeys(properties, map[], keys)
  {
    var nodeConfigs: map<string, NodeConfig> := map[];
    var i := 0;
    while i < |keys|
      invariant 0 <= i <= |keys|
      invariant AddNodeKeys(properties, map[], keys) == AddNodeKeys(properties, nodeConfigs, keys[i..])
    {
      var key := keys[i];
      assert keys[i..][0] == key && keys[i..][1..] == keys[i + 1..];
      if IsNodeKey(key) {
        var identifier := Identifier(key);
        var nodeConfig;
        if identifier in nodeConfigs {
          nodeConfig := nodeConfigs[identifier];
        } else {
          if identifier != AllNodes && Join(NodeAddress, identifier) !in properties {
            return Failure(MissingAddress(identifier));
          }
          nodeConfig := NodeConfig(map[]);
        }
        assert key[4] == '.';
        var configKey := key[..|key| - |identifier| - 1];
        nodeConfigs := nodeConfigs[identifier := nodeConfig.Put(configKey, properties[key])];
      }
      i := i + 1;
    }
    r := Success(nodeConfigs);
  }

  /** A node key that init rejects: its node is new, is not "*", and has no address. */
  predicate Unaddressed(properties: Properties, nodes: map<string, NodeConfig>, key: string) {
    IsNodeKey(key) && Identifier(key) !in nodes && Identifier(key) != AllNodes
    && Join(NodeAddress, Identifier(key)) !in properties
  }

  /** The loop fails exactly when some key names a new node other than "*" that has no address, and then reports such a node. */
  lemma {:induction false} AddNodeKeysFailure(properties: Properties, nodes: map<string, NodeConfig>, keys: seq<string>)
    requires forall k :: k in keys ==> k in properties
    ensures AddNodeKeys(properties, nodes, keys).Failure? <==>
      exists i :: 0 <= i < |keys| && Unaddressed(properties, nodes, keys[i])
    ensures AddNodeKeys(properties, nodes, keys).Failure? ==>
      exists i :: 0 <= i < |keys| && Unaddressed(properties, nodes, keys[i]) &&
        AddNodeKeys(properties, nodes, keys).error == MissingAddress(Identifier(keys[i]))
    decreases |keys|
  {
    if |keys| > 0 {
      var key := keys[0];
      match AddNodeKey(properties, nodes, key)
      case Failure(e) =>
        assert Unaddressed(properties, nodes, keys[0]);
      case Success(next) =>
        AddNodeKeysFailure(properties, next, keys[1..]);
        assert !Unaddressed(properties, nodes, keys[0]);
        forall x | IsNodeKey(x)
          ensures Unaddressed(properties, next, x) <==> Unaddressed(properties, nodes, x)
        {
          if IsNodeKey(key) && Identifier(x) == Identifier(key) {
            assert !Unaddressed(properties, nodes, key);
          }
        }
        if exists i :: 0 <= i < |keys| && Unaddressed(properties, nodes, keys[i]) {
          var i :| 0 <= i < |keys| && Unaddressed(properties, nodes, keys[i]);
          assert keys[1..][i - 1] == keys[i];
        }
        if AddNodeKeys(properties, next, keys[1..]).Failure? {
          var i :| 0 <= i < |keys[1..]| && Unaddressed(properties, next, keys[1..][i]) &&
            AddNodeKeys(properties, next, keys[1..]).error == MissingAddress(Identifier(keys[1..][i]));
          assert keys[i + 1] == keys[1..][i];
        }
    }
  }

  predicate Distinct(keys: seq<string>) {
    forall i, j :: 0 <= i < j < |keys| ==> keys[i] != keys[j]
  }

  /** Node `id` holds setting `ck`. */
  predicate Holds(nodes: map<string, NodeConfig>, id: string, ck: string) {
    id in nodes && ck in nodes[id].configs
  }

  /** Key `key` files its value as setting `ck` of node `id`. */
  predicate Files(key: string, id: string, ck: string) {
    IsNodeKey(key) && Identifier(key) == id && ConfigKey(key) == ck
  }

  /** One key: a setting it does not file keeps its value; the one it files gets the key's value; nothing else appears. */
  lemma AddNodeKeyEffect(properties: Properties, nodes: map<string, NodeConfig>, key: string, id: string, ck: string)
    requires key in properties
    requires AddNodeKey(properties, nodes, key).Success?
    ensures var next := AddNodeKey(properties, nodes, key).value;
      (Holds(next, id, ck) <==> Holds(nodes, id, ck) || Files(key, id, ck)) &&
      (Files(key, id, ck) ==> next[id].configs[ck] == properties[key]) &&
      (!Files(key, id, ck) && Holds(nodes, id, ck) ==> next[id].configs[ck] == nodes[id].configs[ck])
  {
  }

  /** A setting that no key files keeps its value through the loop. */
  lemma {:induction false} AddNodeKeysKeeps(properties: Properties, nodes: map<string, NodeConfig>, keys: seq<string>, id: string, ck: string)
    requires forall k :: k in keys ==> k in properties
    requires AddNodeKeys(properties, nodes, keys).Success?
    requires Holds(nodes, id, ck)
    requires forall k :: k in keys ==> !Files(k, id, ck)
    ensures Holds(AddNodeKeys(properties, nodes, keys).value, id, ck)
    ensures AddNodeKeys(properties, nodes, keys).value[id].configs[ck] == nodes[id].configs[ck]
    decreases |keys|
  {
    if |keys| > 0 {
      assert keys[0] in keys;
      AddNodeKeyEffect(properties, nodes, keys[0], id, ck);
      var next := AddNodeKey(properties, nodes, keys[0]).value;
      assert forall k :: k in keys[1..] ==> k in keys;
      AddNodeKeysKeeps(properties, next, keys[1..], id, ck);
    }
  }

  /** Every setting the loop ends with was there before or is filed by one of the keys. */
  lemma {:induction false} AddNodeKeysProvenance(properties: Properties, nodes: map<string, NodeConfig>, keys: seq<string>, id: string, ck: string)
    requires forall k :: k in keys ==> k in properties
    requires AddNodeKeys(properties, nodes, keys).Success?
    requires Holds(AddNodeKeys(properties, nodes, keys).value, id, ck)
    ensures Holds(nodes, id, ck) || exists k :: k in keys && Files(k, id, ck)
    decreases |keys|
  {
    if |keys| > 0 {
      AddNodeKeyEffect(properties, nodes, keys[0], id, ck);
      var next := AddNodeKey(properties, nodes, keys[0]).value;
      AddNodeKeysProvenance(properties, next, keys[1..], id, ck);
      if !Holds(next, id, ck) {
        var k :| k in keys[1..] && Files(k, id, ck);
        assert k in keys;
      } else if !Holds(nodes, id, ck) {
        assert Files(keys[0], id, ck);
      }
    }
  }

  /** With distinct names, each node key's value ends up filed under its node and setting name. */
  lemma {:induction false} AddNodeKeysFilesEach(properties: Properties, nodes: map<string, NodeConfig>, keys: seq<string>, i: nat)
    requires forall k :: k in keys ==> k in properties
    requires Distinct(keys)
    requires AddNodeKeys(properties, nodes, keys).Success?
    requires i < |keys| && IsNodeKey(keys[i])
    ensures Holds(AddNodeKeys(properties, nodes, keys).value, Identifier(keys[i]), ConfigKey(keys[i]))
    ensures AddNodeKeys(properties, nodes, keys).value[Identifier(keys[i])].configs[ConfigKey(keys[i])] == properties[keys[i]]
    decreases |keys|
  {
    var key := keys[i];
    var id, ck := Identifier(key), ConfigKey(key);
    AddNodeKeyEffect(properties, nodes, keys[0], id, ck);
    var next := AddNodeKey(properties, nodes, keys[0]).value;
    var rest := keys[1..];
    assert forall k :: k in rest ==> k in keys;
    if i == 0 {
      forall k | k in rest
        ensures !Files(k, id, ck)
      {
        var j :| 0 <= j < |rest| && rest[j] == k;
        assert keys[j + 1] == k;
        if Files(k, id, ck) {
          NodeKeySplits(k);
          NodeKeySplits(key);
          assert false;
        }
      }
      AddNodeKeysKeeps(properties, next, rest, id, ck);
    } else {
      assert Distinct(rest) by {
        forall a, b | 0 <= a < b < |rest| ensures rest[a] != rest[b] {
          assert rest[a] == keys[a + 1] && rest[b] == keys[b + 1];
        }
      }
      assert rest[i - 1] == key;
      AddNodeKeysFilesEach(properties, next, rest, i - 1);
    }
  }

  /**
   * init's node configurations read the properties back: the nodes are the
   * identifiers of the "node." keys, and node `id` holds setting `ck`
   * exactly when the property `ck.id` exists, with its value.
   */
  lemma InitNodeConfigs(properties: Properties, keys: seq<string>, id: string, ck: string)
    requires forall k :: k in keys <==> k in properties
    requires Distinct(keys)
    requires InitSpec(properties, keys).Success?
    ensures var nodes := InitSpec(properties, keys).value.nodeConfigs;
      id in nodes <==> exists k :: k in properties && IsNodeKey(k) && Identifier(k) == id
    ensures var nodes := InitSpec(properties, keys).value.nodeConfigs;
      id in nodes ==> (ck in nodes[id].configs <==> Join(ck, id) in properties && IsNodeKey(Join(ck, id)))
    ensures var nodes := InitSpec(properties, keys).value.nodeConfigs;
      id in nodes && ck in nodes[id].configs ==> nodes[id].configs[ck] == properties[Join(ck, id)]
  {
    var nodes := InitSpec(properties, keys).value.nodeConfigs;
    assert AddNodeKeys(properties, map[], keys) == Success(nodes);
    AddNodeKeysDomain(properties, map[], keys);
    if id in nodes {
      var k :| k in keys && IsNodeKey(k) && Identifier(k) == id;
      IdentifierOfJoin(ck, id);
      if Holds(nodes, id, ck) {
        AddNodeKeysProvenance(properties, map[], keys, id, ck);
        var k' :| k' in keys && Files(k', id, ck);
        NodeKeySplits(k');
        var i :| 0 <= i < |keys| && keys[i] == k';
        AddNodeKeysFilesEach(properties, map[], keys, i);
      }
      if Join(ck, id) in properties && IsNodeKey(Join(ck, id)) {
        var i :| 0 <= i < |keys| && keys[i] == Join(ck, id);
        AddNodeKeysFilesEach(properties, map[], keys, i);
      }
    }
  }

  /** A map whose only possible key is "*" is empty or holds just "*". */
  lemma OnlyAllNodes(nodes: map<string, NodeConfig>)
    ensures NoRealNode(nodes) <==> forall id :: id in nodes ==> id == AllNodes
  {
    if forall id :: id in nodes ==> id == AllNodes {
      assert nodes.Keys <= {AllNodes};
      if AllNodes in nodes {
        assert nodes.Keys == {AllNodes};
      } else {
        assert nodes.Keys == {};
      }
    }
    if |nodes| == 1 && AllNodes in nodes {
      forall id | id in nodes ensures id == AllNodes {
        if id != AllNodes {
          assert {id, AllNodes} <= nodes.Keys;
          assert |{id, AllNodes}| == 2;
          Sets.SubsetNotLarger({id, AllNodes}, nodes.Keys);
        }
      }
    }
  }

  /**
   * init succeeds exactly when the RMI address is set, the RMI port (1099
   * when unset) parses, every node other than "*" has an address, and some
   * node other than "*" is configured.
   */
  lemma InitSucceedsIff(properties: Properties, keys: seq<string>)
    requires forall k :: k in keys <==> k in properties
    ensures InitSpec(properties, keys).Success? <==>
      ControllerRmiAddress in properties &&
      Text.ParseInt(PortText(properties)).Some? &&
      AllAddressed(properties) && HasRealNode(properties)
  {
    NodeKeysSucceedIff(properties, keys);
    var nodes := AddNodeKeys(properties, map[], keys);
    if nodes.Success? {
      RealNodeIff(properties, keys);
    }
  }

  /**
   * init's errors, in the order it checks: a missing RMI address; then a
   * node other than "*" without an address (naming one such node); then no
   * node other than "*" at all.
   */
  lemma InitErrors(properties: Properties, keys: seq<string>)
    requires forall k :: k in keys <==> k in properties
    ensures ControllerRmiAddress !in properties ==>
      InitSpec(properties, keys) == Failure(Raise(IllegalState, "controller.rmi.address is not defined."))
    ensures ControllerRmiAddress in properties && Text.ParseInt(PortText(properties)).Some? && !AllAddressed(properties) ==>
      exists k :: k in properties && IsNodeKey(k) && Identifier(k) != AllNodes &&
        Join(NodeAddress, Identifier(k)) !in properties &&
        InitSpec(properties, keys) == Failure(MissingAddress(Identifier(k)))
    ensures (ControllerRmiAddress in properties && Text.ParseInt(PortText(properties)).Some? &&
             AllAddressed(properties) && !HasRealNode(properties)) ==>
      InitSpec(properties, keys) == Failure(NoNodeDefined)
  {
    assert ControllerRmiAddress + " is not defined." == "controller.rmi.address is not defined.";
    NodeKeysSucceedIff(properties, keys);
    AddNodeKeysFailure(properties, map[], keys);
    if AddNodeKeys(properties, map[], keys).Success? {
      RealNodeIff(properties, keys);
    } else {
      var i :| 0 <= i < |keys| && Unaddressed(properties, map[], keys[i]) &&
        AddNodeKeys(properties, map[], keys).error == MissingAddress(Identifier(keys[i]));
      assert keys[i] in properties;
    }
  }

  /** Every node other than "*" that a key names has an address. */
  ghost predicate AllAddressed(properties: Properties) {
    forall k :: k in properties && IsNodeKey(k) && Identifier(k) != AllNodes ==> Join(NodeAddress, Identifier(k)) in properties
  }

  /** Some key names a node other than "*". */
  ghost predicate HasRealNode(properties: Properties) {
    exists k :: k in properties && IsNodeKey(k) && Identifier(k) != AllNodes
  }

  /** init's loop succeeds exactly when every node other than "*" has an address. */
  lemma NodeKeysSucceedIff(properties: Properties, keys: seq<string>)
    requires forall k :: k in keys <==> k in properties
    ensures AddNodeKeys(properties, map[], keys).Success? <==> AllAddressed(properties)
  {
    AddNodeKeysFailure(properties, map[], keys);
    if !AllAddressed(properties) {
      var k :| k in properties && IsNodeKey(k) && Identifier(k) != AllNodes && Join(NodeAddress, Identifier(k)) !in properties;
      var i :| 0 <= i < |keys| && keys[i] == k;
      assert Unaddressed(properties, map[], keys[i]);
    }
  }

  /** After the loop, the setup counts exactly when some key names a node other than "*". */
  lemma RealNodeIff(properties: Properties, keys: seq<string>)
    requires forall k :: k in keys <==> k in properties
    requires AddNodeKeys(properties, map[], keys).Success?
    ensures !NoRealNode(AddNodeKeys(properties, map[], keys).value) <==> HasRealNode(properties)
  {
    var nodes := AddNodeKeys(properties, map[], keys).value;
    OnlyAllNodes(nodes);
    AddNodeKeysNodes(properties, keys);
    if HasRealNode(properties) {
      var k :| k in properties && IsNodeKey(k) && Identifier(k) != AllNodes;
      assert Identifier(k) in nodes;
    }
  }

  /** The loop's nodes are exactly the identifiers of the node keys (whether or not the loop fails later does not matter here). */
  lemma AddNodeKeysNodes(properties: Properties, keys: seq<string>)
    requires forall k :: k in keys <==> k in properties
    requires AddNodeKeys(properties, map[], keys).Success?
    ensures forall id :: id in AddNodeKeys(properties, map[], keys).value <==>
      exists k :: k in properties && IsNodeKey(k) && Identifier(k) == id
  {
    AddNodeKeysDomain(properties, map[], keys);
  }

  lemma {:induction false} AddNodeKeysDomain(properties: Properties, nodes: map<string, NodeConfig>, keys: seq<string>)
    requires forall k :: k in keys ==> k in properties
    requires AddNodeKeys(properties, nodes, keys).Success?
    ensures forall id :: id in AddNodeKeys(properties, nodes, keys).value <==>
      id in nodes || exists k :: k in keys && IsNodeKey(k) && Identifier(k) == id
    decreases |keys|
  {
    if |keys| > 0 {
      var next := AddNodeKey(properties, nodes, keys[0]).value;
      AddNodeKeysDomain(properties, next, keys[1..]);
      assert forall k :: k in keys <==> k == keys[0] || k in keys[1..];
    }
  }

  /**
   * DistributedNodeConfig.get: the node's own value, else the "*" node's
   * value, else the built-in default, else null.
   */
  function NodeGet(config: DistributedConfig, node: NodeConfig, key: string): (r: Option<string>)
    ensures r.None? <==>
      !node.Contains(key) && (AllNodes !in config.nodeConfigs || !config.nodeConfigs[AllNodes].Contains(key)) &&
      DefaultValue(key).None?
  {
    if node.Contains(key) then Some(node.configs[key])
    else if AllNodes in config.nodeConfigs && config.nodeConfigs[AllNodes].Contains(key) then
      Some(config.nodeConfigs[AllNodes].configs[key])
    else DefaultValue(key)
  }

  /**
   * Read through init, a node's setting `ck` is the property `ck.<id>`, else
   * `ck.*`, else the built-in default.
   */
  lemma NodeGetReadsProperties(properties: Properties, keys: seq<string>, id: string, ck: string)
    requires forall k :: k in keys <==> k in properties
    requires Distinct(keys)
    requires InitSpec(properties, keys).Success?
    requires id in InitSpec(properties, keys).value.nodeConfigs
    ensures var config := InitSpec(properties, keys).value;
      NodeGet(config, config.nodeConfigs[id], ck) ==
        if Join(ck, id) in properties && IsNodeKey(Join(ck, id)) then Some(properties[Join(ck, id)])
        else if Join(ck, AllNodes) in properties && IsNodeKey(Join(ck, AllNodes)) then Some(properties[Join(ck, AllNodes)])
        else DefaultValue(ck)
  {
    InitNodeConfigs(properties, keys, id, ck);
    InitNodeConfigs(properties, keys, AllNodes, ck);
    if Join(ck, AllNodes) in properties && IsNodeKey(Join(ck, AllNodes)) {
      IdentifierOfJoin(ck, AllNodes);
    }
  }

  /** With no controller.rmi.port property the RMI port is 1099. */
  lemma DefaultRmiPort(properties: Properties, keys: seq<string>)
    requires forall k :: k in keys <==> k in properties
    requires ControllerRmiPort !in properties
    requires InitSpec(properties, keys).Success?
    ensures InitSpec(properties, keys).value.rmiPort == 1099
  {
    assert PortText(properties) == "1099";
    ParseDefaultRmiPort();
  }

  /** 1099 parses as 1099. */
  lemma ParseDefaultRmiPort()
    ensures Text.ParseInt("1099") == Some(1099)
  {
    Text.ParseIntOfIntToString(1099);
    assert Text.NatToString(1) == "1";
    assert Text.NatToString(10) == "10";
    assert Text.NatToString(109) == "109";
    assert Text.NatToString(1099) == "1099";
  }
}
