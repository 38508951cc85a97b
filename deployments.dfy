/**
 * Deployments.deploy: copies every file of the controller's `deployments`
 * directory to `deployment.destination` on every configured node. Uploads
 * are recorded, not performed; the order of the node keys (a HashMap's key
 * set) and of each directory listing are left open.
 */
module Deploying {
  import opened Wrappers
  import Config
  import opened FileSystem
  import Results
  import Sets

  /** The directory deploy() copies from, relative to the working directory. */
  const DeploymentsDir: string := "deployments"

  /** One `upload(identifier, source, destination)` through ServerCommandManager. */
  datatype Upload = Upload(identifier: string, source: string, destination: string)

  /** File.getAbsolutePath() of a relative path. */
  function AbsolutePath(workingDir: string, path: string): string {
    workingDir + Separator + path
  }

  lemma AbsolutePathInjective(workingDir: string, a: string, b: string)
    requires AbsolutePath(workingDir, a) == AbsolutePath(workingDir, b)
    ensures a == b
  {
    var n := |workingDir + Separator|;
    assert a == AbsolutePath(workingDir, a)[n..];
    assert b == AbsolutePath(workingDir, b)[n..];
  }

  /** The deployments directory exists and is a directory. */
  predicate SourceReady(tree: Tree) {
    DeploymentsDir in tree && tree[DeploymentsDir].Directory?
  }

  /** The uploads deploy() issues for the nodes in `nodes`: each file to each node other than "*". */
  ghost function Planned(nodes: seq<string>, files: set<string>, workingDir: string, destination: string): set<Upload> {
    set id, f | id in nodes && id != Config.AllNodes && f in files :: Upload(id, AbsolutePath(workingDir, f), destination)
  }

  /** No upload is issued twice. */
  ghost predicate NoRepeats(uploads: seq<Upload>) {
    forall i, j :: 0 <= i < j < |uploads| ==> uploads[i] != uploads[j]
  }

  /** The set of uploads in a sequence. */
  ghost function Issued(uploads: seq<Upload>): set<Upload> {
    set i | 0 <= i < |uploads| :: uploads[i]
  }

  lemma IssuedConcat(a: seq<Upload>, b: seq<Upload>)
    ensures Issued(a + b) == Issued(a) + Issued(b)
  {
    forall u | u in Issued(a + b) ensures u in Issued(a) + Issued(b) {
      var i :| 0 <= i < |a + b| && (a + b)[i] == u;
      if i >= |a| {
        assert b[i - |a|] == u;
      }
    }
    forall u | u in Issued(a) ensures u in Issued(a + b) {
      var i :| 0 <= i < |a| && a[i] == u;
      assert (a + b)[i] == u;
    }
    forall u | u in Issued(b) ensures u in Issued(a + b) {
      var i :| 0 <= i < |b| && b[i] == u;
      assert (a + b)[|a| + i] == u;
    }
  }

  /** The inner loop of deploy(): every listed file to one node, each once, in listing order. */
  method UploadFiles(identifier: string, files: set<string>, workingDir: string, destination: string)
    returns (batch: seq<Upload>)
    ensures Issued(batch) == set f | f in files :: Upload(identifier, AbsolutePath(workingDir, f), destination)
    ensures NoRepeats(batch)
  {
    batch := [];
    var remaining := files;
    while remaining != {}
      invariant remaining <= files
      invariant Issued(batch) == set f | f in files - remaining :: Upload(identifier, AbsolutePath(workingDir, f), destination)
      invariant NoRepeats(batch)
      decreases |remaining|
    {
      var f :| f in remaining;
      var u := Upload(identifier, AbsolutePath(workingDir, f), destination);
      forall i | 0 <= i < |batch| ensures batch[i] != u {
        assert batch[i] in Issued(batch);
        if batch[i] == u {
          var g :| g in files - remaining && batch[i] == Upload(identifier, AbsolutePath(workingDir, g), destination);
          AbsolutePathInjective(workingDir, f, g);
        }
      }
      IssuedConcat(batch, [u]);
      assert [u][0] == u && Issued([u]) == {u};
      batch := batch + [u];
      Sets.SubsetSmaller(remaining - {f}, remaining, f);
      remaining := remaining - {f};
    }
  }

  /** One more node key adds that node's uploads, unless it is "*". */
  lemma PlannedStep(nodes: seq<string>, i: nat, files: set<string>, workingDir: string, destination: string)
    requires i < |nodes|
    ensures Planned(nodes[..i + 1], files, workingDir, destination) ==
      Planned(nodes[..i], files, workingDir, destination) +
      (if nodes[i] == Config.AllNodes then {}
       else set f | f in files :: Upload(nodes[i], AbsolutePath(workingDir, f), destination))
  {
    var before := Planned(nodes[..i], files, workingDir, destination);
    var node := if nodes[i] == Config.AllNodes then {}
      else set f | f in files :: Upload(nodes[i], AbsolutePath(workingDir, f), destination);
    assert nodes[..i + 1] == nodes[..i] + [nodes[i]];
    forall u | u in Planned(nodes[..i + 1], files, workingDir, destination) ensures u in before + node {
      var id, f :| id in nodes[..i + 1] && id != Config.AllNodes && f in files && u == Upload(id, AbsolutePath(workingDir, f), destination);
      if id !in nodes[..i] {
        assert id == nodes[i];
      }
    }
    forall u | u in before ensures u in Planned(nodes[..i + 1], files, workingDir, destination) {
      var id, f :| id in nodes[..i] && id != Config.AllNodes && f in files && u == Upload(id, AbsolutePath(workingDir, f), destination);
      assert id in nodes[..i + 1];
    }
    forall u | u in node ensures u in Planned(nodes[..i + 1], files, workingDir, destination) {
      var f :| f in files && u == Upload(nodes[i], AbsolutePath(workingDir, f), destination);
      assert nodes[i] in nodes[..i + 1];
    }
  }

  /**
   * deploy(): nothing when the destination is null or blank or the
   * deployments directory is missing; otherwise each file of the directory
   * to each configured node except "*", once per node and file.
   */
  method Deploy(settings: Config.DistributedConfig, keys: seq<string>, disk: Disk, workingDir: string)
    returns (uploads: seq<Upload>)
    requires forall k :: k in keys <==> k in settings.nodeConfigs
    requires Config.Distinct(keys)
    ensures Results.NullOrBlank(settings.deploymentDestination) || !SourceReady(disk.tree) ==> uploads == []
    ensures !Results.NullOrBlank(settings.deploymentDestination) && SourceReady(disk.tree) ==>
      Issued(uploads) == Planned(keys, Children(disk.tree, DeploymentsDir), workingDir, settings.deploymentDestination.value)
    ensures NoRepeats(uploads)
  {
    var destination := settings.deploymentDestination;
    if Results.NullOrBlank(destination) {
      return [];
    }
    if !SourceReady(disk.tree) {
      return [];
    }
    uploads := [];
    var i := 0;
    while i < |keys|
      invariant 0 <= i <= |keys|
      invariant Issued(uploads) == Planned(keys[..i], Children(disk.tree, DeploymentsDir), workingDir, destination.value)
      invariant NoRepeats(uploads)
      invariant forall u :: u in Issued(uploads) ==> u.identifier in keys[..i]
    {
      var identifier := keys[i];
      PlannedStep(keys, i, Children(disk.tree, DeploymentsDir), workingDir, destination.value);
      if identifier != Config.AllNodes {
        var batch := UploadFiles(identifier, Children(disk.tree, DeploymentsDir), workingDir, destination.value);
        NewNodeNoRepeats(uploads, batch, keys, i);
        IssuedConcat(uploads, batch);
        uploads := uploads + batch;
      }
      assert keys[..i + 1] == keys[..i] + [keys[i]];
      i := i + 1;
    }
    assert keys[..i] == keys;
  }

  /** Uploads to a node not seen before repeat none of the earlier ones. */
  lemma NewNodeNoRepeats(uploads: seq<Upload>, batch: seq<Upload>, keys: seq<string>, i: nat)
    requires i < |keys| && Config.Distinct(keys)
    requires NoRepeats(uploads) && NoRepeats(batch)
    requires forall u :: u in Issued(uploads) ==> u.identifier in keys[..i]
    requires forall u :: u in Issued(batch) ==> u.identifier == keys[i]
    ensures NoRepeats(uploads + batch)
  {
    var all := uploads + batch;
    forall a, b | 0 <= a < b < |all| ensures all[a] != all[b] {
      if a < |uploads| && b >= |uploads| {
        assert all[a] in Issued(uploads);
        assert all[b] == batch[b - |uploads|] && all[b] in Issued(batch);
        var j :| 0 <= j < i && keys[j] == all[a].identifier;
      } else if a >= |uploads| {
        assert all[a] == batch[a - |uploads|] && all[b] == batch[b - |uploads|];
      }
    }
  }

  /** Every node other than "*" gets every file: the upload of any listed file to any such node is issued. */
  lemma DeployReachesEveryNode(keys: seq<string>, files: set<string>, workingDir: string, destination: string,
                               id: string, f: string)
    requires id in keys && id != Config.AllNodes && f in files
    ensures Upload(id, AbsolutePath(workingDir, f), destination) in Planned(keys, files, workingDir, destination)
  {
  }

  /** The "*" pseudo-node never receives an upload. */
  lemma DeploySkipsAllNodes(keys: seq<string>, files: set<string>, workingDir: string, destination: string, u: Upload)
    requires u in Planned(keys, files, workingDir, destination)
    ensures u.identifier != Config.AllNodes && u.identifier in keys && u.destination == destination
  {
  }
}
