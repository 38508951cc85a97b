/**
 * The controller half of the distributed join (ControlHost). Each
 * joinEnlistStart runs the engine's joinEnlist on a fresh proxy thread
 * (JoinServerThread), which then parks. An accepted proxy is kept under a
 * session key until joinEnlistEnd releases it; a rejected one is released
 * at once. Threads become explicit steps: the proxy's enlist step runs
 * while the caller waits for it, and a release stands for the notify that
 * lets the proxy's run() return.
 */
module JoinServer {
  import opened Wrappers
  import opened Exceptions
  import Text

  type Identifier = string

  /**
   * The session key: the current time in milliseconds followed by the proxy
   * thread's id, both in decimal (`"%d%d"`).
   */
  function SessionKey(millis: nat, threadId: nat): (key: string)
    ensures Text.AllDigits(key)
  {
    Text.NatToString(millis) + Text.NatToString(threadId)
  }

  lemma {:induction false} NatToStringInjective(a: nat, b: nat)
    requires Text.NatToString(a) == Text.NatToString(b)
    ensures a == b
  {
    Text.DigitsValueOfNatToString(a);
    Text.DigitsValueOfNatToString(b);
  }

  /** Two keys taken at times of the same decimal width are equal only for the same time and thread. */
  lemma SessionKeyInjectiveForSameWidth(millis1: nat, threadId1: nat, millis2: nat, threadId2: nat)
    requires |Text.NatToString(millis1)| == |Text.NatToString(millis2)|
    requires SessionKey(millis1, threadId1) == SessionKey(millis2, threadId2)
    ensures millis1 == millis2 && threadId1 == threadId2
  {
    var w := |Text.NatToString(millis1)|;
    assert Text.NatToString(millis1) == SessionKey(millis1, threadId1)[..w];
    assert Text.NatToString(millis2) == SessionKey(millis2, threadId2)[..w];
    NatToStringInjective(millis1, millis2);
    assert Text.NatToString(threadId1) == SessionKey(millis1, threadId1)[w..];
    assert Text.NatToString(threadId2) == SessionKey(millis2, threadId2)[w..];
    NatToStringInjective(threadId1, threadId2);
  }

  /** Plain concatenation does not make keys unique across widths: time 1 with thread 23 meets time 12 with thread 3. */
  lemma SessionKeyCollision()
    ensures SessionKey(1, 23) == SessionKey(12, 3)
  {
    assert Text.NatToString(23) == Text.NatToString(2) + Text.NatToString(3);
    assert Text.NatToString(12) == Text.NatToString(1) + Text.NatToString(2);
  }

  /** A proxy thread: it runs the engine's joinEnlist once, records the result, and parks until released. */
  class JoinServerThread {
    const identifier: Identifier
    const threadId: nat
    var result: bool
    var enlistFinished: bool
    /** Notified out of its final wait, so that run() has returned. */
    var released: bool

    constructor (identifier: Identifier, threadId: nat)
      ensures this.identifier == identifier && this.threadId == threadId
      ensures !result && !enlistFinished && !released
    {
      this.identifier := identifier;
      this.threadId := threadId;
      result := false;
      enlistFinished := false;
      released := false;
    }

    /** The first half of run(): the engine's answer is stored, then the finished flag is raised. */
    method RunEnlist(engineResult: bool)
      requires !enlistFinished
      modifies this
      ensures result == engineResult && enlistFinished && released == old(released)
    {
      result := engineResult;
      enlistFinished := true;
    }

    /** notify / notifyAll: the parked proxy wakes and its run() returns. */
    method Release()
      requires enlistFinished
      modifies this
      ensures released && result == old(result) && enlistFinished
    {
      released := true;
    }
  }

  class ControlHost {
    /** Accepted, still parked proxies by session key. */
    var joinThreadMap: map<string, JoinServerThread>
    /** The identifiers the engine's joinEnlist was called with, in call order. */
    var enlistCalls: seq<Identifier>

    /** Every tabled proxy finished its enlist, was accepted and is still parked; no proxy sits under two keys. */
    ghost predicate Valid()
      reads this, joinThreadMap.Values
    {
      (forall key :: key in joinThreadMap ==>
        joinThreadMap[key].enlistFinished && joinThreadMap[key].result && !joinThreadMap[key].released)
      && (forall key1, key2 :: key1 in joinThreadMap && key2 in joinThreadMap && key1 != key2 ==>
        joinThreadMap[key1] != joinThreadMap[key2])
    }

    constructor ()
      ensures Valid() && joinThreadMap == map[] && enlistCalls == []
    {
      joinThreadMap := map[];
      enlistCalls := [];
    }

    /** The one-call joinEnlist is not offered; callers use the start/end pair. */
    method JoinEnlist(identifier: Identifier) returns (r: Result<bool, Throwable>)
      ensures r == Failure(Throwable(UnsupportedOperation, None, None))
    {
      r := Failure(Throwable(UnsupportedOperation, None, None));
    }

    /**
     * joinEnlistStart: a new proxy with id `threadId` runs the engine's
     * joinEnlist, which answers `engineAccepts`; the caller waits until the
     * proxy's result is recorded. On acceptance the proxy is tabled under
     * the key built from `millis` and its id, and that key is returned;
     * otherwise the proxy is released and null is returned.
     */
    method JoinEnlistStart(identifier: Identifier, engineAccepts: bool, millis: nat, threadId: nat)
      returns (key: Option<string>)
      requires Valid()
      modifies this
      ensures Valid()
      ensures enlistCalls == old(enlistCalls) + [identifier]
      ensures key.Some? <==> engineAccepts
      ensures key.Some? ==>
        key.value == SessionKey(millis, threadId) && key.value in joinThreadMap &&
        joinThreadMap == old(joinThreadMap)[key.value := joinThreadMap[key.value]] &&
        fresh(joinThreadMap[key.value]) &&
        joinThreadMap[key.value].identifier == identifier && joinThreadMap[key.value].threadId == threadId
      ensures key.None? ==> joinThreadMap == old(joinThreadMap)
    {
      var proxy := new JoinServerThread(identifier, threadId);
      while !proxy.enlistFinished
        invariant fresh(proxy) && proxy.identifier == identifier && proxy.threadId == threadId
        invariant !proxy.released
        invariant proxy.enlistFinished ==> proxy.result == engineAccepts
        invariant !proxy.enlistFinished ==> enlistCalls == old(enlistCalls)
        invariant proxy.enlistFinished ==> enlistCalls == old(enlistCalls) + [identifier]
        invariant joinThreadMap == old(joinThreadMap) && Valid()
        decreases if proxy.enlistFinished then 0 else 1
      {
        enlistCalls := enlistCalls + [identifier];
        proxy.RunEnlist(engineAccepts);
      }
      if proxy.result {
        var k := SessionKey(millis, threadId);
        joinThreadMap := joinThreadMap[k := proxy];
        key := Some(k);
      } else {
        proxy.Release();
        key := None;
      }
    }

    /** joinEnlistEnd: removes the key and releases its proxy; an unknown key changes nothing. */
    method JoinEnlistEnd(key: string)
      requires Valid()
      modifies this, if key in joinThreadMap then {joinThreadMap[key]} else {}
      ensures Valid()
      ensures joinThreadMap == old(joinThreadMap) - {key}
      ensures key in old(joinThreadMap) ==> old(joinThreadMap)[key].released
      ensures key !in old(joinThreadMap) ==> joinThreadMap == old(joinThreadMap)
      ensures enlistCalls == old(enlistCalls)
    {
      if key in joinThreadMap {
        var proxy := joinThreadMap[key];
        joinThreadMap := joinThreadMap - {key};
        proxy.Release();
      }
    }
  }

  /** A fresh controller, and two clients enlist the same identifier in the same millisecond; the engine accepts both. */
  method TwoEnlists(identifier: Identifier, millis: nat, threadId1: nat, threadId2: nat)
    returns (host: ControlHost, key1: Option<string>, key2: Option<string>)
    requires threadId1 != threadId2
    ensures fresh(host) && host.Valid()
    ensures forall k :: k in host.joinThreadMap ==> fresh(host.joinThreadMap[k])
    ensures key1.Some? && key2.Some? && key1.value != key2.value
    ensures host.joinThreadMap.Keys == {key1.value, key2.value}
    ensures host.enlistCalls == [identifier, identifier]
  {
    host := new ControlHost();
    key1 := host.JoinEnlistStart(identifier, true, millis, threadId1);
    key2 := host.JoinEnlistStart(identifier, true, millis, threadId2);
    if key1.value == key2.value {
      SessionKeyInjectiveForSameWidth(millis, threadId1, millis, threadId2);
    }
  }

  /**
   * Colliding keys overwrite: enlists at time 1 by thread 23 and at time 12
   * by thread 3 are both accepted under the same key, so the table keeps
   * only the second proxy, and the first stays parked with no key left that
   * joinEnlistEnd could release it by.
   */
  method CollidingEnlists(identifier: Identifier) returns (host: ControlHost, first: JoinServerThread, key: string)
    ensures fresh(host) && host.Valid()
    ensures host.joinThreadMap.Keys == {key} && host.joinThreadMap[key] != first
    ensures first.enlistFinished && first.result && !first.released
  {
    host := new ControlHost();
    var key1 := host.JoinEnlistStart(identifier, true, 1, 23);
    first := host.joinThreadMap[key1.value];
    var key2 := host.JoinEnlistStart(identifier, true, 12, 3);
    SessionKeyCollision();
    key := key2.value;
  }

  /**
   * Two clients enlist the same identifier and the engine accepts both: each
   * gets its own key, and ending each key once empties the table again.
   * Ending a key a second time changes nothing.
   */
  method TwoEnlistsThenEnd(identifier: Identifier, millis: nat, threadId1: nat, threadId2: nat)
    returns (key1: Option<string>, key2: Option<string>)
    requires threadId1 != threadId2
    ensures key1.Some? && key2.Some? && key1.value != key2.value
  {
    var host;
    host, key1, key2 := TwoEnlists(identifier, millis, threadId1, threadId2);
    host.JoinEnlistEnd(key1.value);
    host.JoinEnlistEnd(key2.value);
    assert host.joinThreadMap == map[];
    host.JoinEnlistEnd(key2.value);
    assert host.joinThreadMap == map[];
    assert host.enlistCalls == [identifier, identifier];
  }
}
