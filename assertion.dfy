/**
 * The assertion engine: matchers are checked against every collected
 * fragment, iterator by iterator. A SUCCESS_IF_MATCH matcher is dropped at
 * its first match and must have matched by the end; a SUCCESS_IF_NOT_MATCH
 * matcher fails the assertion at the first fragment it matches. Scanning
 * stops early once no matcher is left. Matchers are generic: the model takes
 * their `matches` and `getTestType` as functions. An iterator is the
 * sequence of fragments it yields; in `Source` it is followed by the end or
 * by the exception its hasNext() raises instead.
 */
module Assertion {
  import opened Wrappers
  import Text

  datatype TestType = SuccessIfMatch | SuccessIfNotMatch

  /**
   * How assertMatches ends: it returns, or throws AssertionError
   * "Matched by [m] at [fragment]" or "Not matched by [m]".
   */
  datatype Verdict<M, T> = Pass | MatchedBy(matcher: M, fragment: T) | NotMatchedBy(matcher: M)

  /** Where the scan stopped: every iterator exhausted, no matcher left, or a forbidden match. */
  datatype Stop<M, T> = Exhausted(live: seq<M>) | AllDropped | Offended(matcher: M, fragment: T)

  /**
   * One fragment against the live matchers in list order. Matching
   * SUCCESS_IF_MATCH matchers are dropped; the first matching
   * SUCCESS_IF_NOT_MATCH matcher is returned as the failure.
   */
  function StepLine<M, T>(live: seq<M>, line: T, matches: (M, T) -> bool, testType: M -> TestType): Result<seq<M>, M> {
    if |live| == 0 then Success([])
    else if matches(live[0], line) && testType(live[0]) == SuccessIfNotMatch then Failure(live[0])
    else
      var rest := StepLine(live[1..], line, matches, testType);
      if rest.Failure? || matches(live[0], line) then rest
      else Success([live[0]] + rest.value)
  }

  /** After the last fragment: the first SUCCESS_IF_MATCH matcher still live fails; otherwise the assertion passes. */
  function Final<M, T>(live: seq<M>, testType: M -> TestType): Verdict<M, T> {
    if |live| == 0 then Pass
    else if testType(live[0]) == SuccessIfMatch then NotMatchedBy(live[0])
    else Final(live[1..], testType)
  }

  /**
   * The scan from `current`, the rest of the iterator being read, and the
   * iterators after it: where it stops, and how many hasNext() calls it makes.
   */
  function Scan<M, T>(live: seq<M>, current: seq<T>, rest: seq<seq<T>>,
                      matches: (M, T) -> bool, testType: M -> TestType): (Stop<M, T>, nat)
    decreases |rest|, |current|
  {
    if |current| == 0 then
      if |rest| == 0 then (Exhausted(live), 1)
      else
        var next := Scan(live, rest[0], rest[1..], matches, testType);
        (next.0, next.1 + 1)
    else
      match StepLine(live, current[0], matches, testType)
      case Failure(m) => (Offended(m, current[0]), 1)
      case Success(remaining) =>
        if |remaining| == 0 then (AllDropped, 1)
        else
          var next := Scan(remaining, current[1..], rest, matches, testType);
          (next.0, next.1 + 1)
  }

  /** The scan from iterator `k` on, with the matchers still live. */
  function ScanFrom<M, T>(live: seq<M>, iterators: seq<seq<T>>, k: nat,
                          matches: (M, T) -> bool, testType: M -> TestType): (Stop<M, T>, nat)
    requires k <= |iterators|
  {
    if k == |iterators| then (Exhausted(live), 0)
    else Scan(live, iterators[k], iterators[k + 1..], matches, testType)
  }

  function Outcome<M, T>(stop: Stop<M, T>, testType: M -> TestType): Verdict<M, T> {
    match stop
    case Exhausted(live) => Final(live, testType)
    case AllDropped => Pass
    case Offended(m, fragment) => MatchedBy(m, fragment)
  }

  /** assertMatches over a matcher list and the collector's iterators: the verdict and the number of hasNext() calls. */
  function AssertMatchesSpec<M, T>(matchers: seq<M>, iterators: seq<seq<T>>,
                                   matches: (M, T) -> bool, testType: M -> TestType): (Verdict<M, T>, nat)
  {
    var scan := ScanFrom(matchers, iterators, 0, matches, testType);
    (Outcome(scan.0, testType), scan.1)
  }

  /**
   * An iterator as assertMatches reads it: the fragments it yields, then
   * either the end or the exception its last hasNext() raises.
   */
  datatype Source<T, E> = Source(fragments: seq<T>, fault: Option<E>)

  /** The position of the first iterator whose hasNext() raises, or |sources| if none does. */
  function FirstFault<T, E>(sources: seq<Source<T, E>>): (j: nat)
    ensures j <= |sources| && (j < |sources| ==> sources[j].fault.Some?)
    ensures forall i :: 0 <= i < j ==> sources[i].fault.None?
  {
    if |sources| == 0 || sources[0].fault.Some? then 0 else 1 + FirstFault(sources[1..])
  }

  /** The fragments of every iterator. */
  function Fragments<T, E>(sources: seq<Source<T, E>>): (r: seq<seq<T>>)
    ensures |r| == |sources| && forall i :: 0 <= i < |sources| ==> r[i] == sources[i].fragments
  {
    if |sources| == 0 then [] else [sources[0].fragments] + Fragments(sources[1..])
  }

  /** The fragments of the iterators up to and including the first that raises: nothing after it is read. */
  function Readable<T, E>(sources: seq<Source<T, E>>): (r: seq<seq<T>>)
    ensures |r| == (if FirstFault(sources) < |sources| then FirstFault(sources) + 1 else |sources|)
    ensures r == Fragments(sources)[..|r|]
  {
    if |sources| == 0 then []
    else if sources[0].fault.Some? then [sources[0].fragments]
    else [sources[0].fragments] + Readable(sources[1..])
  }

  /**
   * assertMatches when a hasNext() may raise: the scan over the iterators up
   * to the first that raises; when that scan reads all of them without
   * stopping, the exception ends the call.
   */
  function AssertMatchesOutcome<M, T, E>(matchers: seq<M>, sources: seq<Source<T, E>>,
                                         matches: (M, T) -> bool, testType: M -> TestType): (Result<Verdict<M, T>, E>, nat)
  {
    var j := FirstFault(sources);
    var scan := ScanFrom(matchers, Readable(sources), 0, matches, testType);
    if j < |sources| && scan.0.Exhausted? then (Failure(sources[j].fault.value), scan.1)
    else (Success(Outcome(scan.0, testType)), scan.1)
  }

  /** Iterators that never raise give the verdict and hasNext() count of the scan over their fragments. */
  lemma FaultFreeOutcome<M, T, E>(matchers: seq<M>, sources: seq<Source<T, E>>,
                                  matches: (M, T) -> bool, testType: M -> TestType)
    requires forall i :: 0 <= i < |sources| ==> sources[i].fault.None?
    ensures var spec := AssertMatchesSpec(matchers, Fragments(sources), matches, testType);
      AssertMatchesOutcome(matchers, sources, matches, testType) == (Success(spec.0), spec.1)
  {
    assert FirstFault(sources) == |sources|;
    assert Readable(sources) == Fragments(sources);
  }

  /** A scan that stops inside its iterators stops the same way whatever iterators follow them. */
  lemma {:induction false} ScanStopsEarly<M, T>(live: seq<M>, current: seq<T>, rest: seq<seq<T>>, more: seq<seq<T>>,
                                                matches: (M, T) -> bool, testType: M -> TestType)
    requires !Scan(live, current, rest, matches, testType).0.Exhausted?
    ensures Scan(live, current, rest + more, matches, testType) == Scan(live, current, rest, matches, testType)
    decreases |rest|, |current|
  {
    if |current| == 0 {
      assert |rest| > 0;
      assert (rest + more)[0] == rest[0] && (rest + more)[1..] == rest[1..] + more;
      ScanStopsEarly(live, rest[0], rest[1..], more, matches, testType);
    } else {
      match StepLine(live, current[0], matches, testType)
      case Failure(_) =>
      case Success(remaining) =>
        if |remaining| > 0 {
          ScanStopsEarly(remaining, current[1..], rest, more, matches, testType);
        }
    }
  }

  /** A non-empty prefix of `all` and the rest of `all` make up `all`, its head and its tail. */
  lemma PrefixSplit<X>(all: seq<X>, prefix: seq<X>)
    requires 0 < |prefix| <= |all| && prefix == all[..|prefix|]
    ensures all == prefix + all[|prefix|..]
    ensures all[0] == prefix[0] && all[1..] == prefix[1..] + all[|prefix|..]
  {
    assert all == all[..|prefix|] + all[|prefix|..];
  }

  /**
   * An exception from a hasNext() is never seen when the assertion has
   * already failed on a fragment or run out of matchers: the outcome is then
   * that of the scan over all fragments.
   */
  lemma FaultAfterStopUnseen<M, T, E>(matchers: seq<M>, sources: seq<Source<T, E>>,
                                      matches: (M, T) -> bool, testType: M -> TestType)
    requires !ScanFrom(matchers, Readable(sources), 0, matches, testType).0.Exhausted?
    ensures var spec := AssertMatchesSpec(matchers, Fragments(sources), matches, testType);
      AssertMatchesOutcome(matchers, sources, matches, testType) == (Success(spec.0), spec.1)
  {
    var readable := Readable(sources);
    var all := Fragments(sources);
    PrefixSplit(all, readable);
    ScanStopsEarly(matchers, readable[0], readable[1..], all[|readable|..], matches, testType);
  }

  /** Moving one element across a concatenation. */
  lemma AppendRegroup<M>(prefix: seq<M>, m: M, tail: seq<M>)
    ensures prefix + ([m] + tail) == (prefix + [m]) + tail
  {
  }

  function Prepend<M>(kept: seq<M>, r: Result<seq<M>, M>): Result<seq<M>, M> {
    if r.Failure? then r else Success(kept + r.value)
  }

  /**
   * The inner loop of assertMatches for one fragment: walks the copied list
   * by index, removing a matching SUCCESS_IF_MATCH matcher in place (so the
   * index steps back and the size shrinks), and stops at a matching
   * SUCCESS_IF_NOT_MATCH matcher.
   */
  method MatchLine<M, T>(matcherList: seq<M>, line: T, matches: (M, T) -> bool, testType: M -> TestType)
    returns (r: Result<seq<M>, M>)
    ensures r == StepLine(matcherList, line, matches, testType)
  {
    var list := matcherList;
    var size := |list|;
    var i: int := 0;
    var whole := StepLine(list, line, matches, testType);
    if whole.Success? {
      assert [] + whole.value == whole.value;
    }
    assert list[..0] == [] && list[0..] == list;
    while i < size
      invariant 0 <= i <= size == |list|
      invariant StepLine(matcherList, line, matches, testType) == Prepend(list[..i], StepLine(list[i..], line, matches, testType))
    {
      var m := list[i];
      if matches(m, line) {
        match testType(m)
        case SuccessIfMatch =>
          assert StepLine(list[i..], line, matches, testType) == StepLine(list[i + 1..], line, matches, testType);
          ghost var before := list;
          list := list[..i] + list[i + 1..];
          assert list[..i] == before[..i];
          assert list[i..] == before[i + 1..];
          size := size - 1;
          i := i - 1;
        case SuccessIfNotMatch =>
          return Failure(m);
      } else {
        assert list[i..][1..] == list[i + 1..];
        assert list[..i] + [m] == list[..i + 1];
        var after := StepLine(list[i + 1..], line, matches, testType);
        if after.Success? {
          AppendRegroup(list[..i], m, after.value);
        }
      }
      i := i + 1;
    }
    assert list[i..] == [];
    assert list[..i] + [] == list;
    r := Success(list);
  }

  /** The final loop of assertMatches: the first SUCCESS_IF_MATCH matcher left fails the assertion. */
  method CheckUnmatched<M, T>(matcherList: seq<M>, testType: M -> TestType) returns (verdict: Verdict<M, T>)
    ensures verdict == Final(matcherList, testType)
  {
    var i := 0;
    while i < |matcherList|
      invariant 0 <= i <= |matcherList|
      invariant Final<M, T>(matcherList, testType) == Final(matcherList[i..], testType)
    {
      if testType(matcherList[i]) == SuccessIfMatch {
        return NotMatchedBy(matcherList[i]);
      }
      assert matcherList[i..][1..] == matcherList[i + 1..];
      i := i + 1;
    }
    verdict := Pass;
  }

  /**
   * assertMatches(collector, matchers): copies the list, reads every
   * iterator with hasNext()/next() and matches each fragment, returns as
   * soon as no matcher is left, and finally fails on an unmatched
   * SUCCESS_IF_MATCH matcher. An exception from hasNext() is not caught
   * and ends the call. `polls` counts the hasNext() calls.
   */
  method AssertMatches<M, T, E>(matchers: seq<M>, sources: seq<Source<T, E>>,
                                matches: (M, T) -> bool, testType: M -> TestType)
    returns (outcome: Result<Verdict<M, T>, E>, polls: nat)
    ensures (outcome, polls) == AssertMatchesOutcome(matchers, sources, matches, testType)
  {
    ghost var iterators := Readable(sources);
    ghost var first := FirstFault(sources);
    assert |iterators| == if first < |sources| then first + 1 else |sources|;
    ghost var total := ScanFrom(matchers, iterators, 0, matches, testType);
    var matcherList := matchers;
    polls := 0;
    var k := 0;
    while k < |sources|
      invariant 0 <= k <= first
      invariant total.0 == ScanFrom(matcherList, iterators, k, matches, testType).0
      invariant total.1 == polls + ScanFrom(matcherList, iterators, k, matches, testType).1
    {
      assert k < |iterators| && iterators[k] == sources[k].fragments;
      var stopped, remaining, read := ReadFragments(matcherList, sources[k].fragments, iterators[k + 1..], matches, testType);
      if stopped.Some? {
        return Success(stopped.value), polls + read;
      }
      matcherList := remaining;
      polls := polls + read + 1;
      k := k + 1;
      if sources[k - 1].fault.Some? {
        assert k == |iterators|;
        return Failure(sources[k - 1].fault.value), polls;
      }
    }
    var verdict := CheckUnmatched(matcherList, testType);
    outcome := Success(verdict);
  }

  /**
   * The inner loop of assertMatches over one iterator: each fragment is
   * matched in turn, and reading stops at a forbidden match or once no
   * matcher is left. `polls` counts the hasNext() calls that returned true.
   */
  method ReadFragments<M, T>(matcherList: seq<M>, fragments: seq<T>, ghost rest: seq<seq<T>>,
                             matches: (M, T) -> bool, testType: M -> TestType)
    returns (stopped: Option<Verdict<M, T>>, remaining: seq<M>, polls: nat)
    ensures var scan := Scan(matcherList, fragments, rest, matches, testType);
      if stopped.Some? then
        !scan.0.Exhausted? && stopped.value == Outcome(scan.0, testType) && scan.1 == polls
      else
        scan == (Scan(remaining, [], rest, matches, testType).0, polls + Scan(remaining, [], rest, matches, testType).1)
  {
    ghost var total := Scan(matcherList, fragments, rest, matches, testType);
    remaining := matcherList;
    polls := 0;
    var j := 0;
    while j < |fragments|
      invariant 0 <= j <= |fragments|
      invariant total.0 == Scan(remaining, fragments[j..], rest, matches, testType).0
      invariant total.1 == polls + Scan(remaining, fragments[j..], rest, matches, testType).1
    {
      polls := polls + 1;
      var line := fragments[j];
      assert fragments[j..][1..] == fragments[j + 1..];
      j := j + 1;
      var step := MatchLine(remaining, line, matches, testType);
      if step.Failure? {
        return Some(MatchedBy(step.error, line)), remaining, polls;
      }
      remaining := step.value;
      if |remaining| == 0 {
        return Some(Pass), remaining, polls;
      }
    }
    stopped := None;
  }

  /** assertMatches(collector, m1): the list version on [m1]. */
  method AssertMatches1<M, T, E>(sources: seq<Source<T, E>>, m1: M, matches: (M, T) -> bool, testType: M -> TestType)
    returns (outcome: Result<Verdict<M, T>, E>, polls: nat)
    ensures (outcome, polls) == AssertMatchesOutcome([m1], sources, matches, testType)
  {
    outcome, polls := AssertMatches([m1], sources, matches, testType);
  }

  /** assertMatches(collector, m1, m2): the list version on [m1, m2]. */
  method AssertMatches2<M, T, E>(sources: seq<Source<T, E>>, m1: M, m2: M, matches: (M, T) -> bool, testType: M -> TestType)
    returns (outcome: Result<Verdict<M, T>, E>, polls: nat)
    ensures (outcome, polls) == AssertMatchesOutcome([m1, m2], sources, matches, testType)
  {
    outcome, polls := AssertMatches([m1, m2], sources, matches, testType);
  }

  /** assertMatches(collector, m1, m2, m3): the list version on [m1, m2, m3]. */
  method AssertMatches3<M, T, E>(sources: seq<Source<T, E>>, m1: M, m2: M, m3: M,
                                 matches: (M, T) -> bool, testType: M -> TestType)
    returns (outcome: Result<Verdict<M, T>, E>, polls: nat)
    ensures (outcome, polls) == AssertMatchesOutcome([m1, m2, m3], sources, matches, testType)
  {
    outcome, polls := AssertMatches([m1, m2, m3], sources, matches, testType);
  }

  /** The fragments of all iterators, in reading order. */
  function Flatten<T>(iterators: seq<seq<T>>): seq<T> {
    if |iterators| == 0 then [] else iterators[0] + Flatten(iterators[1..])
  }

  /**
   * A reference reading of the assertion: the fragments one after another,
   * with no iterator boundaries and no early stop.
   */
  function ScanLines<M, T>(live: seq<M>, lines: seq<T>, matches: (M, T) -> bool, testType: M -> TestType): Verdict<M, T>
    decreases |lines|
  {
    if |lines| == 0 then Final(live, testType)
    else
      match StepLine(live, lines[0], matches, testType)
      case Failure(m) => MatchedBy(m, lines[0])
      case Success(remaining) => ScanLines(remaining, lines[1..], matches, testType)
  }

  /** `line` fails a SUCCESS_IF_NOT_MATCH matcher. */
  predicate Offends<M, T>(m: M, line: T, matches: (M, T) -> bool, testType: M -> TestType) {
    testType(m) == SuccessIfNotMatch && matches(m, line)
  }

  /** `line` satisfies, and so retires, a SUCCESS_IF_MATCH matcher. */
  predicate Retires<M, T>(m: M, line: T, matches: (M, T) -> bool, testType: M -> TestType) {
    testType(m) == SuccessIfMatch && matches(m, line)
  }

  /** Every SUCCESS_IF_MATCH matcher in `live` matches some fragment. */
  ghost predicate AllFound<M, T>(live: seq<M>, lines: seq<T>, matches: (M, T) -> bool, testType: M -> TestType) {
    forall m :: m in live && testType(m) == SuccessIfMatch ==> exists k :: 0 <= k < |lines| && matches(m, lines[k])
  }

  /** No SUCCESS_IF_NOT_MATCH matcher in `live` matches any fragment. */
  ghost predicate Clean<M, T>(live: seq<M>, lines: seq<T>, matches: (M, T) -> bool, testType: M -> TestType) {
    forall m, k :: m in live && 0 <= k < |lines| && testType(m) == SuccessIfNotMatch ==> !matches(m, lines[k])
  }

  /** What assertMatches promises when it returns normally. */
  ghost predicate Satisfied<M, T>(live: seq<M>, lines: seq<T>, matches: (M, T) -> bool, testType: M -> TestType) {
    AllFound(live, lines, matches, testType) && Clean(live, lines, matches, testType)
  }

  /** One fragment fails on an offended matcher of the list, and otherwise keeps exactly the matchers it does not retire. */
  lemma {:induction false} StepLineKeeps<M, T>(live: seq<M>, line: T, matches: (M, T) -> bool, testType: M -> TestType)
    ensures StepLine(live, line, matches, testType).Success? <==>
      forall m :: m in live ==> !Offends(m, line, matches, testType)
    ensures StepLine(live, line, matches, testType).Failure? ==>
      var m := StepLine(live, line, matches, testType).error;
      m in live && Offends(m, line, matches, testType)
    ensures StepLine(live, line, matches, testType).Success? ==>
      forall m :: m in StepLine(live, line, matches, testType).value <==> m in live && !Retires(m, line, matches, testType)
    decreases |live|
  {
    if |live| > 0 {
      StepLineKeeps(live[1..], line, matches, testType);
      assert forall m :: m in live <==> m == live[0] || m in live[1..];
      if !Offends(live[0], line, matches, testType) {
        assert StepLine(live, line, matches, testType).Success? == StepLine(live[1..], line, matches, testType).Success?;
      }
    }
  }

  /** A list with no matcher left passes whatever follows. */
  lemma {:induction false} NoMatcherPasses<M, T>(lines: seq<T>, matches: (M, T) -> bool, testType: M -> TestType)
    ensures ScanLines<M, T>([], lines, matches, testType) == Pass
    decreases |lines|
  {
    if |lines| > 0 {
      NoMatcherPasses<M, T>(lines[1..], matches, testType);
    }
  }

  /** The scan with its iterator boundaries and early stop reaches the verdict of the reference reading. */
  lemma {:induction false} ScanAgreesWithLines<M, T>(live: seq<M>, current: seq<T>, rest: seq<seq<T>>,
                                                     matches: (M, T) -> bool, testType: M -> TestType)
    ensures Outcome(Scan(live, current, rest, matches, testType).0, testType)
         == ScanLines(live, current + Flatten(rest), matches, testType)
    decreases |rest|, |current|
  {
    if |current| == 0 {
      assert current + Flatten(rest) == Flatten(rest);
      if |rest| > 0 {
        ScanAgreesWithLines(live, rest[0], rest[1..], matches, testType);
      }
    } else {
      var lines := current + Flatten(rest);
      assert lines[0] == current[0];
      assert lines[1..] == current[1..] + Flatten(rest);
      match StepLine(live, current[0], matches, testType)
      case Failure(m) =>
      case Success(remaining) =>
        if |remaining| == 0 {
          NoMatcherPasses<M, T>(lines[1..], matches, testType);
        } else {
          ScanAgreesWithLines(remaining, current[1..], rest, matches, testType);
        }
    }
  }

  /** assertMatches reaches the verdict of the reference reading over all fragments. */
  lemma AssertMatchesReadsAllFragments<M, T>(matchers: seq<M>, iterators: seq<seq<T>>,
                                             matches: (M, T) -> bool, testType: M -> TestType)
    ensures AssertMatchesSpec(matchers, iterators, matches, testType).0
         == ScanLines(matchers, Flatten(iterators), matches, testType)
  {
    if |iterators| > 0 {
      ScanAgreesWithLines(matchers, iterators[0], iterators[1..], matches, testType);
    }
  }

  /** The final check passes exactly when no SUCCESS_IF_MATCH matcher is left, and otherwise names one that is. */
  lemma {:induction false} FinalNamesUnmatched<M, T>(live: seq<M>, testType: M -> TestType)
    ensures Final<M, T>(live, testType).Pass? <==> forall m :: m in live ==> testType(m) == SuccessIfNotMatch
    ensures !Final<M, T>(live, testType).MatchedBy?
    ensures Final<M, T>(live, testType).NotMatchedBy? ==>
      Final<M, T>(live, testType).matcher in live && testType(Final<M, T>(live, testType).matcher) == SuccessIfMatch
    decreases |live|
  {
    if |live| > 0 {
      FinalNamesUnmatched<M, T>(live[1..], testType);
      assert forall m :: m in live <==> m == live[0] || m in live[1..];
    }
  }

  /** Reading one fragment that offends nothing: the rest satisfies the survivors exactly when all fragments satisfy the list. */
  lemma SatisfiedStep<M, T>(live: seq<M>, remaining: seq<M>, lines: seq<T>, matches: (M, T) -> bool, testType: M -> TestType)
    requires |lines| > 0
    requires forall m :: m in live ==> !Offends(m, lines[0], matches, testType)
    requires forall m :: m in remaining <==> m in live && !Retires(m, lines[0], matches, testType)
    ensures Satisfied(live, lines, matches, testType) <==> Satisfied(remaining, lines[1..], matches, testType)
  {
    var rest := lines[1..];
    if Satisfied(live, lines, matches, testType) {
      forall m | m in remaining && testType(m) == SuccessIfMatch
        ensures exists k :: 0 <= k < |rest| && matches(m, rest[k])
      {
        var k :| 0 <= k < |lines| && matches(m, lines[k]);
        assert k != 0;
        assert rest[k - 1] == lines[k];
      }
      forall m, k | m in remaining && 0 <= k < |rest| && testType(m) == SuccessIfNotMatch
        ensures !matches(m, rest[k])
      {
        assert rest[k] == lines[k + 1];
      }
    }
    if Satisfied(remaining, rest, matches, testType) {
      forall m | m in live && testType(m) == SuccessIfMatch
        ensures exists k :: 0 <= k < |lines| && matches(m, lines[k])
      {
        if !matches(m, lines[0]) {
          assert m in remaining;
          var k :| 0 <= k < |rest| && matches(m, rest[k]);
          assert lines[k + 1] == rest[k];
        }
      }
      forall m, k | m in live && 0 <= k < |lines| && testType(m) == SuccessIfNotMatch
        ensures !matches(m, lines[k])
      {
        if k > 0 {
          assert m in remaining;
          assert lines[k] == rest[k - 1];
        }
      }
    }
  }

  /** The reference reading passes exactly when every SUCCESS_IF_MATCH matcher matches some fragment and no SUCCESS_IF_NOT_MATCH matcher matches any. */
  lemma {:induction false} ScanLinesPassIff<M, T>(live: seq<M>, lines: seq<T>, matches: (M, T) -> bool, testType: M -> TestType)
    ensures ScanLines(live, lines, matches, testType) == Pass <==> Satisfied(live, lines, matches, testType)
    decreases |lines|
  {
    if |lines| == 0 {
      FinalNamesUnmatched<M, T>(live, testType);
    } else {
      StepLineKeeps(live, lines[0], matches, testType);
      match StepLine(live, lines[0], matches, testType)
      case Failure(m) =>
        assert !Clean(live, lines, matches, testType) by {
          assert m in live && 0 <= 0 < |lines| && testType(m) == SuccessIfNotMatch && matches(m, lines[0]);
        }
      case Success(remaining) =>
        ScanLinesPassIff(remaining, lines[1..], matches, testType);
        SatisfiedStep(live, remaining, lines, matches, testType);
    }
  }

  /** "Matched by [m] at [f]": m is a SUCCESS_IF_NOT_MATCH matcher of the list, and f is the first fragment that any such matcher matches. */
  lemma {:induction false} ScanLinesMatchedBy<M, T>(live: seq<M>, lines: seq<T>, matches: (M, T) -> bool, testType: M -> TestType,
                                                    m: M, f: T)
    requires ScanLines(live, lines, matches, testType) == MatchedBy(m, f)
    ensures m in live && Offends(m, f, matches, testType)
    ensures exists k :: 0 <= k < |lines| && lines[k] == f && Clean(live, lines[..k], matches, testType)
    decreases |lines|
  {
    if |lines| == 0 {
      FinalNamesUnmatched<M, T>(live, testType);
    } else {
      StepLineKeeps(live, lines[0], matches, testType);
      match StepLine(live, lines[0], matches, testType)
      case Failure(m0) =>
        assert lines[..0] == [];
        assert 0 < |lines| && lines[0] == f && Clean(live, lines[..0], matches, testType);
      case Success(remaining) =>
        var rest := lines[1..];
        ScanLinesMatchedBy(remaining, rest, matches, testType, m, f);
        var k :| 0 <= k < |rest| && rest[k] == f && Clean(remaining, rest[..k], matches, testType);
        assert lines[k + 1] == f;
        var before := lines[..k + 1];
        forall m', j | m' in live && 0 <= j < |before| && testType(m') == SuccessIfNotMatch
          ensures !matches(m', before[j])
        {
          if j > 0 {
            assert m' in remaining;
            assert before[j] == rest[..k][j - 1];
          }
        }
    }
  }

  /** "Not matched by [m]": m is a SUCCESS_IF_MATCH matcher of the list that matches no fragment. */
  lemma {:induction false} ScanLinesNotMatchedBy<M, T>(live: seq<M>, lines: seq<T>, matches: (M, T) -> bool, testType: M -> TestType,
                                                       m: M)
    requires ScanLines(live, lines, matches, testType) == NotMatchedBy(m)
    ensures m in live && testType(m) == SuccessIfMatch
    ensures forall k :: 0 <= k < |lines| ==> !matches(m, lines[k])
    decreases |lines|
  {
    if |lines| == 0 {
      FinalNamesUnmatched<M, T>(live, testType);
    } else {
      StepLineKeeps(live, lines[0], matches, testType);
      var remaining := StepLine(live, lines[0], matches, testType).value;
      ScanLinesNotMatchedBy(remaining, lines[1..], matches, testType, m);
      forall k | 0 <= k < |lines|
        ensures !matches(m, lines[k])
      {
        if k > 0 {
          assert lines[k] == lines[1..][k - 1];
        }
      }
    }
  }

  /**
   * assertMatches returns normally exactly when every SUCCESS_IF_MATCH
   * matcher matches some collected fragment and no SUCCESS_IF_NOT_MATCH
   * matcher matches any.
   */
  lemma AssertMatchesPassIff<M, T>(matchers: seq<M>, iterators: seq<seq<T>>, matches: (M, T) -> bool, testType: M -> TestType)
    ensures AssertMatchesSpec(matchers, iterators, matches, testType).0 == Pass
        <==> Satisfied(matchers, Flatten(iterators), matches, testType)
  {
    AssertMatchesReadsAllFragments(matchers, iterators, matches, testType);
    ScanLinesPassIff(matchers, Flatten(iterators), matches, testType);
  }

  /**
   * The two AssertionErrors: "Matched by [m] at [f]" names a
   * SUCCESS_IF_NOT_MATCH matcher and the first fragment that offends any such
   * matcher; "Not matched by [m]" names a SUCCESS_IF_MATCH matcher that
   * matches no fragment.
   */
  lemma AssertMatchesFailures<M, T>(matchers: seq<M>, iterators: seq<seq<T>>, matches: (M, T) -> bool, testType: M -> TestType)
    ensures var v := AssertMatchesSpec(matchers, iterators, matches, testType).0;
      v.MatchedBy? ==>
        v.matcher in matchers && Offends(v.matcher, v.fragment, matches, testType) &&
        exists k :: 0 <= k < |Flatten(iterators)| && Flatten(iterators)[k] == v.fragment &&
          Clean(matchers, Flatten(iterators)[..k], matches, testType)
    ensures var v := AssertMatchesSpec(matchers, iterators, matches, testType).0;
      v.NotMatchedBy? ==>
        v.matcher in matchers && testType(v.matcher) == SuccessIfMatch &&
        forall k :: 0 <= k < |Flatten(iterators)| ==> !matches(v.matcher, Flatten(iterators)[k])
  {
    AssertMatchesReadsAllFragments(matchers, iterators, matches, testType);
    var v := AssertMatchesSpec(matchers, iterators, matches, testType).0;
    match v
    case Pass =>
    case MatchedBy(m, f) => ScanLinesMatchedBy(matchers, Flatten(iterators), matches, testType, m, f);
    case NotMatchedBy(m) => ScanLinesNotMatchedBy(matchers, Flatten(iterators), matches, testType, m);
  }

  /** hasNext() is called at most once per fragment plus once per iterator. */
  lemma {:induction false} ScanPollsBounded<M, T>(live: seq<M>, current: seq<T>, rest: seq<seq<T>>,
                                                  matches: (M, T) -> bool, testType: M -> TestType)
    ensures Scan(live, current, rest, matches, testType).1 <= |current| + |Flatten(rest)| + |rest| + 1
    decreases |rest|, |current|
  {
    if |current| == 0 {
      if |rest| > 0 {
        ScanPollsBounded(live, rest[0], rest[1..], matches, testType);
        assert |Flatten(rest)| == |rest[0]| + |Flatten(rest[1..])|;
      }
    } else {
      match StepLine(live, current[0], matches, testType)
      case Failure(_) =>
      case Success(remaining) =>
        if |remaining| > 0 {
          ScanPollsBounded(remaining, current[1..], rest, matches, testType);
        }
    }
  }

  /** A fragment that retires every matcher of the list leaves none live. */
  lemma {:induction false} AllRetiredEmpties<M, T>(live: seq<M>, line: T, matches: (M, T) -> bool, testType: M -> TestType)
    requires forall m :: m in live ==> Retires(m, line, matches, testType)
    ensures StepLine(live, line, matches, testType) == Success([])
    decreases |live|
  {
    if |live| > 0 {
      assert live[0] in live;
      assert forall m :: m in live[1..] ==> m in live;
      AllRetiredEmpties(live[1..], line, matches, testType);
    }
  }

  /**
   * When every matcher is SUCCESS_IF_MATCH and the first fragment matches
   * them all, assertMatches returns after a single hasNext(), whatever else
   * was collected.
   */
  lemma StopsWhenAllFound<M, T>(matchers: seq<M>, first: T, more: seq<T>, others: seq<seq<T>>,
                                matches: (M, T) -> bool, testType: M -> TestType)
    requires forall m :: m in matchers ==> Retires(m, first, matches, testType)
    ensures AssertMatchesSpec(matchers, [[first] + more] + others, matches, testType) == (Pass, 1)
  {
    AllRetiredEmpties(matchers, first, matches, testType);
    var iterators := [[first] + more] + others;
    assert iterators[0] == [first] + more && iterators[1..] == others;
    assert iterators[0][0] == first;
    assert Scan(matchers, iterators[0], iterators[1..], matches, testType) == (AllDropped, 1);
  }

  /**
   * One iterator yielding "value" and one matcher: a matcher that matches
   * and must match returns after one hasNext(); one that neither matches
   * nor may match returns after two; the other two combinations fail.
   */
  lemma SingleFragmentCases<M>(m: M, matches: (M, string) -> bool, testType: M -> TestType)
    ensures matches(m, "value") && testType(m) == SuccessIfMatch ==>
      AssertMatchesSpec([m], [["value"]], matches, testType) == (Pass, 1)
    ensures !matches(m, "value") && testType(m) == SuccessIfNotMatch ==>
      AssertMatchesSpec([m], [["value"]], matches, testType) == (Pass, 2)
    ensures !matches(m, "value") && testType(m) == SuccessIfMatch ==>
      AssertMatchesSpec([m], [["value"]], matches, testType) == (NotMatchedBy(m), 2)
    ensures matches(m, "value") && testType(m) == SuccessIfNotMatch ==>
      AssertMatchesSpec([m], [["value"]], matches, testType) == (MatchedBy(m, "value"), 1)
  {
    var iterators := [["value"]];
    assert iterators[0] == ["value"] && iterators[1..] == [];
    assert ["value"][1..] == [];
    assert [m][1..] == [];
    var step := StepLine([m], "value", matches, testType);
    assert step == StepLine([m], iterators[0][0], matches, testType);
    assert StepLine<M, string>([m][1..], "value", matches, testType) == Success([]);
    assert [m] + [] == [m];
    if !matches(m, "value") {
      assert step == Success([m]);
      assert Scan([m], ["value"][1..], [], matches, testType) == (Exhausted([m]), 1);
      if testType(m) == SuccessIfNotMatch {
        assert Final<M, string>([m], testType) == Final<M, string>([], testType) == Pass;
      }
    }
  }

  /** The keyword matchers: KeywordMatcher must find its keyword, NoKeywordMatcher must not. */
  datatype KeywordMatcher = Keyword(keyword: string) | NoKeyword(keyword: string)

  /** matches(line): `line.contains(keyword)`, for both kinds. */
  function KeywordMatches(m: KeywordMatcher, line: string): bool {
    Text.Contains(line, m.keyword)
  }

  /** getTestType(): SUCCESS_IF_MATCH for KeywordMatcher, SUCCESS_IF_NOT_MATCH for NoKeywordMatcher. */
  function KeywordTestType(m: KeywordMatcher): TestType {
    match m
    case Keyword(_) => SuccessIfMatch
    case NoKeyword(_) => SuccessIfNotMatch
  }

  /** A keyword matcher matches exactly the lines in which its keyword occurs as a contiguous, case-sensitive substring. */
  lemma KeywordMatchesIffOccurs(m: KeywordMatcher, line: string)
    ensures KeywordMatches(m, line) <==> exists i: nat :: Text.OccursAt(line, m.keyword, i)
  {
    Text.ContainsIffOccurs(line, m.keyword);
  }

  /** The empty keyword matches every line. */
  lemma EmptyKeywordMatchesAll(m: KeywordMatcher, line: string)
    requires m.keyword == ""
    ensures KeywordMatches(m, line)
  {
    Text.ContainsIffOccurs(line, m.keyword);
    assert Text.OccursAt(line, m.keyword, 0);
  }

  /** assertMatches(collector, new KeywordMatcher(w)) passes exactly when some collected line contains w. */
  lemma KeywordFoundIff(keyword: string, iterators: seq<seq<string>>)
    ensures AssertMatchesSpec([Keyword(keyword)], iterators, KeywordMatches, KeywordTestType).0 == Pass
        <==> exists k :: 0 <= k < |Flatten(iterators)| && Text.Contains(Flatten(iterators)[k], keyword)
  {
    var lines := Flatten(iterators);
    var list := [Keyword(keyword)];
    AssertMatchesPassIff(list, iterators, KeywordMatches, KeywordTestType);
    assert forall m :: m in list <==> m == Keyword(keyword);
    if exists k :: 0 <= k < |lines| && Text.Contains(lines[k], keyword) {
      var k :| 0 <= k < |lines| && Text.Contains(lines[k], keyword);
      assert KeywordMatches(Keyword(keyword), lines[k]);
      assert Satisfied(list, lines, KeywordMatches, KeywordTestType);
    }
    if Satisfied(list, lines, KeywordMatches, KeywordTestType) {
      assert Keyword(keyword) in list;
      var k :| 0 <= k < |lines| && KeywordMatches(Keyword(keyword), lines[k]);
      assert Text.Contains(lines[k], keyword);
    }
  }

  /** assertMatches(collector, new NoKeywordMatcher(w)) passes exactly when no collected line contains w. */
  lemma NoKeywordAbsentIff(keyword: string, iterators: seq<seq<string>>)
    ensures AssertMatchesSpec([NoKeyword(keyword)], iterators, KeywordMatches, KeywordTestType).0 == Pass
        <==> forall k :: 0 <= k < |Flatten(iterators)| ==> !Text.Contains(Flatten(iterators)[k], keyword)
  {
    var lines := Flatten(iterators);
    var list := [NoKeyword(keyword)];
    AssertMatchesPassIff(list, iterators, KeywordMatches, KeywordTestType);
    assert forall m :: m in list <==> m == NoKeyword(keyword);
    if Satisfied(list, lines, KeywordMatches, KeywordTestType) {
      forall k | 0 <= k < |lines|
        ensures !Text.Contains(lines[k], keyword)
      {
        assert NoKeyword(keyword) in list;
        assert !KeywordMatches(NoKeyword(keyword), lines[k]);
      }
    }
  }

  /** Matching is case-sensitive: "JBoss" is not found in a line that only says "jboss". */
  lemma KeywordIsCaseSensitive()
    ensures !KeywordMatches(Keyword("JBoss"), "jboss")
    ensures KeywordMatches(Keyword("Boss"), "JBoss")
  {
    Text.ContainsIffOccurs("JBoss", "Boss");
    assert Text.OccursAt("JBoss", "Boss", 1);
    Text.ContainsIffOccurs("jboss", "JBoss");
    forall i: nat | i + 5 <= 5
      ensures !Text.OccursAt("jboss", "JBoss", i)
    {
      assert "jboss"[i..i + 5][0] != "JBoss"[0];
    }
  }
}
