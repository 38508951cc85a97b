/**
 * The rule-side half of the distributed join (DistributedHelper.joinEnlist
 * and its JoinClientThread). The helper keeps, per join identifier, the
 * threads enlisted from this JVM. A thread already recorded for an
 * identifier is turned away without a remote call. An accepted thread gets
 * a watcher that, once the thread has terminated, ends its session key on
 * the controller and takes the thread off the table. Thread termination and
 * the watcher's run are explicit steps; the controller's answers are
 * parameters.
 */
module JoinClient {
  import opened Wrappers
  import opened Exceptions
  import HelperFacade
  import JoinServer

  type Identifier = string
  type ThreadId = nat

  /** A JoinClientThread: ends `key` on the controller once `parent` has terminated. */
  datatype Watcher = Watcher(identifier: Identifier, key: string, parent: ThreadId)

  /** A call the helper makes on the controller's join service. */
  datatype RemoteCall = EnlistStart(identifier: Identifier) | EnlistEnd(key: string)

  predicate NoDuplicates(s: seq<ThreadId>) {
    forall i, j :: 0 <= i < j < |s| ==> s[i] != s[j]
  }

  /** List.remove(Object): drops the first occurrence of `x`, if any. */
  function RemoveFirst(s: seq<ThreadId>, x: ThreadId): (r: seq<ThreadId>)
    ensures x !in s ==> r == s
    ensures x in s ==> |r| == |s| - 1
    ensures forall y :: y in r ==> y in s
  {
    if |s| == 0 then []
    else if s[0] == x then s[1..]
    else [s[0]] + RemoveFirst(s[1..], x)
  }

  lemma TailDistinct(s: seq<ThreadId>)
    requires |s| > 0 && NoDuplicates(s)
    ensures NoDuplicates(s[1..]) && s[0] !in s[1..]
  {
    forall i, j | 0 <= i < j < |s[1..]| ensures s[1..][i] != s[1..][j] {
      assert s[1..][i] == s[i + 1] && s[1..][j] == s[j + 1];
    }
    forall k | 0 <= k < |s[1..]| ensures s[1..][k] != s[0] {
      assert s[1..][k] == s[k + 1];
    }
  }

  /** On a list without duplicates, removing `x` removes every occurrence and keeps every other thread. */
  lemma {:induction false} RemoveFirstKeepsDistinct(s: seq<ThreadId>, x: ThreadId)
    requires NoDuplicates(s)
    ensures NoDuplicates(RemoveFirst(s, x)) && x !in RemoveFirst(s, x)
    ensures forall y :: y in s && y != x ==> y in RemoveFirst(s, x)
  {
    if |s| > 0 {
      TailDistinct(s);
      if s[0] != x {
        RemoveFirstKeepsDistinct(s[1..], x);
        var rest := RemoveFirst(s[1..], x);
        assert RemoveFirst(s, x) == [s[0]] + rest;
        forall i, j | 0 <= i < j < |[s[0]] + rest| ensures ([s[0]] + rest)[i] != ([s[0]] + rest)[j] {
          if i == 0 {
            assert ([s[0]] + rest)[j] == rest[j - 1];
          }
        }
        forall y | y in s && y != x ensures y in [s[0]] + rest {
          if y != s[0] {
            assert y in s[1..];
          }
        }
      }
    }
  }

  /** The threads recorded for an identifier, empty when it has no entry. */
  function Threads(table: map<Identifier, seq<ThreadId>>, identifier: Identifier): seq<ThreadId> {
    if identifier in table then table[identifier] else []
  }

  /** The table after a watcher's clean-up: the thread leaves the list, and an emptied list leaves the table. */
  function Release(table: map<Identifier, seq<ThreadId>>, identifier: Identifier, thread: ThreadId)
    : map<Identifier, seq<ThreadId>>
    requires identifier in table
  {
    var rest := RemoveFirst(table[identifier], thread);
    if |rest| == 0 then table - {identifier} else table[identifier := rest]
  }

  /** Every list is non-empty and holds each thread once. */
  ghost predicate TableWellFormed(table: map<Identifier, seq<ThreadId>>) {
    forall j :: j in table ==> |table[j]| > 0 && NoDuplicates(table[j])
  }

  /** Every pending watcher's thread is recorded under its identifier. */
  ghost predicate WatchersRecorded(table: map<Identifier, seq<ThreadId>>, watchers: seq<Watcher>) {
    forall i :: 0 <= i < |watchers| ==>
      watchers[i].identifier in table && watchers[i].parent in table[watchers[i].identifier]
  }

  /** No two pending watchers watch the same thread for the same identifier. */
  ghost predicate WatchersDistinct(watchers: seq<Watcher>) {
    forall i, k :: 0 <= i < k < |watchers| ==>
      watchers[i].identifier != watchers[k].identifier || watchers[i].parent != watchers[k].parent
  }

  function DropAt(watchers: seq<Watcher>, i: nat): seq<Watcher>
    requires i < |watchers|
  {
    watchers[..i] + watchers[i + 1..]
  }

  /** A watcher that finishes without cleaning up leaves the invariant intact. */
  lemma DropWatcherKeepsInvariant(table: map<Identifier, seq<ThreadId>>, watchers: seq<Watcher>, i: nat)
    requires i < |watchers| && WatchersRecorded(table, watchers) && WatchersDistinct(watchers)
    ensures WatchersRecorded(table, DropAt(watchers, i)) && WatchersDistinct(DropAt(watchers, i))
  {
    var rest := DropAt(watchers, i);
    assert forall k :: 0 <= k < |rest| ==> rest[k] == if k < i then watchers[k] else watchers[k + 1];
  }

  /**
   * A watcher that cleans up: its thread leaves its identifier's list, the
   * list's entry goes once empty, and the invariant holds of what remains.
   */
  lemma ReleaseKeepsInvariant(table: map<Identifier, seq<ThreadId>>, watchers: seq<Watcher>, i: nat)
    requires i < |watchers| && TableWellFormed(table) && WatchersRecorded(table, watchers) && WatchersDistinct(watchers)
    ensures var w := watchers[i];
      var released := Release(table, w.identifier, w.parent);
      TableWellFormed(released) && WatchersRecorded(released, DropAt(watchers, i)) &&
      WatchersDistinct(DropAt(watchers, i)) && w.parent !in Threads(released, w.identifier)
  {
    var w := watchers[i];
    var rest := DropAt(watchers, i);
    DropWatcherKeepsInvariant(table, watchers, i);
    RemoveFirstKeepsDistinct(table[w.identifier], w.parent);
    var released := Release(table, w.identifier, w.parent);
    assert forall k :: 0 <= k < |rest| ==> rest[k] == if k < i then watchers[k] else watchers[k + 1];
    forall k | 0 <= k < |rest|
      ensures rest[k].identifier in released && rest[k].parent in released[rest[k].identifier]
    {
      if rest[k].identifier == w.identifier {
        assert rest[k].parent != w.parent;
      }
    }
  }

  /** The helper's static join table, with its running watchers and its calls to the controller. */
  class JoinClient {
    var joinThreadMap: map<Identifier, seq<ThreadId>>
    /** Watchers started and not yet run to completion. */
    var watchers: seq<Watcher>
    /** Calls made on the controller, in order. */
    var calls: seq<RemoteCall>
    /** Threads that have terminated. */
    var terminated: set<ThreadId>

    ghost predicate Valid()
      reads this
    {
      TableWellFormed(joinThreadMap) && WatchersRecorded(joinThreadMap, watchers) && WatchersDistinct(watchers)
    }

    constructor ()
      ensures Valid()
      ensures joinThreadMap == map[] && watchers == [] && calls == [] && terminated == {}
    {
      joinThreadMap := map[];
      watchers := [];
      calls := [];
      terminated := {};
    }

    /**
     * joinEnlist called on thread `current`. `reply` is the controller's
     * answer to joinEnlistStart: a key, null, or an exception.
     */
    method JoinEnlist(ruleName: string, identifier: Identifier, current: ThreadId,
                      reply: HelperFacade.Reply<Option<string>>)
      returns (r: Result<bool, Throwable>)
      requires Valid() && current !in terminated
      modifies this
      ensures Valid() && terminated == old(terminated)
      ensures current in Threads(old(joinThreadMap), identifier) ==>
        r == Success(false) && calls == old(calls) &&
        joinThreadMap == old(joinThreadMap) && watchers == old(watchers)
      ensures current !in Threads(old(joinThreadMap), identifier) ==>
        calls == old(calls) + [EnlistStart(identifier)]
      ensures current !in Threads(old(joinThreadMap), identifier) && reply.Threw? ==>
        r == Failure(Wrap(Execute, HelperFacade.FailureMessage(ruleName, HelperFacade.JoinEnlist), reply.cause)) &&
        joinThreadMap == old(joinThreadMap) && watchers == old(watchers)
      ensures current !in Threads(old(joinThreadMap), identifier) && reply == HelperFacade.Returned(None) ==>
        r == Success(false) && joinThreadMap == old(joinThreadMap) && watchers == old(watchers)
      ensures current !in Threads(old(joinThreadMap), identifier) && reply.Returned? && reply.value.Some? ==>
        r == Success(true) &&
        joinThreadMap == old(joinThreadMap)[identifier := Threads(old(joinThreadMap), identifier) + [current]] &&
        watchers == old(watchers) + [Watcher(identifier, reply.value.value, current)]
    {
      if identifier in joinThreadMap && current in joinThreadMap[identifier] {
        return Success(false);
      }
      calls := calls + [EnlistStart(identifier)];
      var started := HelperFacade.Forward(ruleName, HelperFacade.JoinEnlist, reply);
      if started.Failure? {
        return Failure(started.error);
      }
      if started.value.None? {
        return Success(false);
      }
      var key := started.value.value;
      watchers := watchers + [Watcher(identifier, key, current)];
      var threads := Threads(joinThreadMap, identifier);
      joinThreadMap := joinThreadMap[identifier := threads + [current]];
      r := Success(true);
    }

    /** Thread `t` runs to completion. */
    method ThreadTerminates(t: ThreadId)
      requires Valid()
      modifies this
      ensures Valid()
      ensures terminated == old(terminated) + {t}
      ensures joinThreadMap == old(joinThreadMap) && watchers == old(watchers) && calls == old(calls)
    {
      terminated := terminated + {t};
    }

    /**
     * The watcher at index `i` sees its thread terminated, calls
     * joinEnlistEnd with its key and, if that call returns (`reply`), takes
     * the thread off the table. An exception from the call is ignored and
     * leaves the table as it was. Either way the watcher finishes.
     */
    method RunWatcher(i: nat, reply: HelperFacade.Reply<()>)
      requires Valid() && i < |watchers| && watchers[i].parent in terminated
      modifies this
      ensures Valid() && terminated == old(terminated)
      ensures watchers == old(watchers[..i] + watchers[i + 1..])
      ensures calls == old(calls) + [EnlistEnd(old(watchers[i].key))]
      ensures reply.Threw? ==> joinThreadMap == old(joinThreadMap)
      ensures reply.Returned? ==>
        joinThreadMap == Release(old(joinThreadMap), old(watchers[i].identifier), old(watchers[i].parent)) &&
        old(watchers[i].parent) !in Threads(joinThreadMap, old(watchers[i].identifier))
    {
      var w := watchers[i];
      calls := calls + [EnlistEnd(w.key)];
      if reply.Returned? {
        ReleaseKeepsInvariant(joinThreadMap, watchers, i);
        joinThreadMap := Release(joinThreadMap, w.identifier, w.parent);
      } else {
        DropWatcherKeepsInvariant(joinThreadMap, watchers, i);
      }
      watchers := DropAt(watchers, i);
    }
  }

  /**
   * Two threads of one JVM enlist the same identifier and the controller
   * hands out two different keys: both threads are recorded, each with its
   * own watcher, and a second enlist by the first thread is turned away
   * without a remote call.
   */
  method TwoThreadsEnlist(ruleName: string, identifier: Identifier, thread1: ThreadId, thread2: ThreadId,
                          key1: string, key2: string)
    returns (first: Result<bool, Throwable>, again: Result<bool, Throwable>, second: Result<bool, Throwable>,
             client: JoinClient)
    requires thread1 != thread2
    ensures fresh(client) && client.Valid() && client.terminated == {}
    ensures first == Success(true) && again == Success(false) && second == Success(true)
    ensures client.joinThreadMap == map[identifier := [thread1, thread2]]
    ensures client.watchers == [Watcher(identifier, key1, thread1), Watcher(identifier, key2, thread2)]
    ensures client.calls == [EnlistStart(identifier), EnlistStart(identifier)]
  {
    first, client := OneThreadEnlisted(ruleName, identifier, thread1, key1);
    again := EnlistRepeated(client, ruleName, identifier, thread1, key2);
    assert thread2 !in [thread1];
    second := EnlistGranted(client, ruleName, identifier, thread2, key2);
    assert [thread1] + [thread2] == [thread1, thread2];
  }

  /** A fresh helper table, and one thread enlists under `identifier` and is handed `key`. */
  method OneThreadEnlisted(ruleName: string, identifier: Identifier, thread: ThreadId, key: string)
    returns (first: Result<bool, Throwable>, client: JoinClient)
    ensures fresh(client) && client.Valid() && client.terminated == {}
    ensures first == Success(true)
    ensures client.joinThreadMap == map[identifier := [thread]]
    ensures client.watchers == [Watcher(identifier, key, thread)]
    ensures client.calls == [EnlistStart(identifier)]
  {
    client := new JoinClient();
    assert Threads(client.joinThreadMap, identifier) == [];
    first := EnlistGranted(client, ruleName, identifier, thread, key);
    assert [] + [thread] == [thread];
  }

  /** A thread already enlisted under `identifier` enlists again: it is turned away and nothing changes. */
  method EnlistRepeated(client: JoinClient, ruleName: string, identifier: Identifier, thread: ThreadId, key: string)
    returns (r: Result<bool, Throwable>)
    requires client.Valid() && thread !in client.terminated
    requires thread in Threads(client.joinThreadMap, identifier)
    modifies client
    ensures client.Valid() && client.terminated == old(client.terminated)
    ensures r == Success(false)
    ensures client.joinThreadMap == old(client.joinThreadMap) && client.watchers == old(client.watchers)
    ensures client.calls == old(client.calls)
  {
    r := client.JoinEnlist(ruleName, identifier, thread, HelperFacade.Returned(Some(key)));
  }

  /** A thread not yet enlisted under `identifier` enlists and the controller hands it `key`. */
  method EnlistGranted(client: JoinClient, ruleName: string, identifier: Identifier, thread: ThreadId, key: string)
    returns (r: Result<bool, Throwable>)
    requires client.Valid() && thread !in client.terminated
    requires thread !in Threads(client.joinThreadMap, identifier)
    modifies client
    ensures client.Valid() && client.terminated == old(client.terminated)
    ensures r == Success(true)
    ensures client.joinThreadMap == old(client.joinThreadMap)[identifier := Threads(old(client.joinThreadMap), identifier) + [thread]]
    ensures client.watchers == old(client.watchers) + [Watcher(identifier, key, thread)]
    ensures client.calls == old(client.calls) + [EnlistStart(identifier)]
  {
    r := client.JoinEnlist(ruleName, identifier, thread, HelperFacade.Returned(Some(key)));
  }

  /**
   * Both threads terminate and their watchers run in turn: each key is
   * ended exactly once, in that order, and the table is empty again.
   */
  method TwoThreadsFinish(client: JoinClient, identifier: Identifier, thread1: ThreadId, thread2: ThreadId,
                          key1: string, key2: string)
    requires client.Valid() && thread1 != thread2
    requires client.joinThreadMap == map[identifier := [thread1, thread2]]
    requires client.watchers == [Watcher(identifier, key1, thread1), Watcher(identifier, key2, thread2)]
    modifies client
    ensures client.Valid() && client.joinThreadMap == map[] && client.watchers == []
    ensures client.calls == old(client.calls) + [EnlistEnd(key1), EnlistEnd(key2)]
  {
    client.ThreadTerminates(thread1);
    assert RemoveFirst([thread1, thread2], thread1) == [thread2];
    client.RunWatcher(0, HelperFacade.Returned(()));
    assert client.joinThreadMap == map[identifier := [thread2]];
    assert client.watchers == [Watcher(identifier, key2, thread2)];

    client.ThreadTerminates(thread2);
    assert RemoveFirst([thread2], thread2) == [];
    client.RunWatcher(0, HelperFacade.Returned(()));
  }
}
