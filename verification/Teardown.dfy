/** Deleting in reverse order of creation against a registry whose objects refer to one another. */
module Teardown {
  import opened Text
  import opened Params
  import opened Runner

  /** Live objects and what each refers to. A delete is refused while another live object refers to its target. */
  type Registry = map<Deletion, set<Deletion>>

  datatype Verdict = Deleted | NotThere | StillReferenced

  ghost predicate Referenced(reg: Registry, d: Deletion) {
    exists o :: o in reg && o != d && d in reg[o]
  }

  ghost function Judge(reg: Registry, d: Deletion): Verdict {
    if d !in reg then NotThere else if Referenced(reg, d) then StillReferenced else Deleted
  }

  ghost function Delete(reg: Registry, d: Deletion): Registry {
    if Judge(reg, d) == Deleted then reg - {d} else reg
  }

  ghost function DeleteAll(reg: Registry, calls: seq<Deletion>): Registry {
    if calls == [] then reg else DeleteAll(Delete(reg, calls[0]), calls[1..])
  }

  /** No call is refused for a reference. */
  ghost predicate NoneRefused(reg: Registry, calls: seq<Deletion>) {
    calls == [] || (Judge(reg, calls[0]) != StillReferenced && NoneRefused(Delete(reg, calls[0]), calls[1..]))
  }

  /** d's first deletion comes no earlier than o's: when d is deleted, o is gone or is d itself. */
  predicate DeletedBy(calls: seq<Deletion>, o: Deletion, d: Deletion) {
    calls != [] && (calls[0] == o || (calls[0] != d && DeletedBy(calls[1..], o, d)))
  }

  /** Every live object that refers to a doomed live one is itself deleted before it. */
  ghost predicate ReferrersFirst(reg: Registry, calls: seq<Deletion>) {
    forall o, d | o in reg && d in reg && d in reg[o] && d in calls && o != d :: DeletedBy(calls, o, d)
  }

  /** No deletion is refused exactly when every referrer of a doomed object is deleted before it. */
  lemma {:induction false} NoneRefusedIff(reg: Registry, calls: seq<Deletion>)
    ensures NoneRefused(reg, calls) <==> ReferrersFirst(reg, calls)
    decreases |calls|
  {
    if calls != [] {
      var d, rest := calls[0], calls[1..];
      var reg' := Delete(reg, d);
      NoneRefusedIff(reg', rest);
      if Judge(reg, d) == StillReferenced {
        var o :| o in reg && o != d && d in reg[o];
        assert !DeletedBy(calls, o, d);
      } else {
        assert d !in reg';
        if ReferrersFirst(reg', rest) {
          forall o, x | o in reg && x in reg && x in reg[o] && x in calls && o != x ensures DeletedBy(calls, o, x) {
            if o != d && x != d {
              assert x in rest && o in reg' && x in reg' && reg'[o] == reg[o];
            }
          }
        }
        if ReferrersFirst(reg, calls) {
          forall o, x | o in reg' && x in reg' && x in reg'[o] && x in rest && o != x ensures DeletedBy(rest, o, x) {
            assert o != d && x != d && DeletedBy(calls, o, x);
          }
        }
      }
    }
  }

  /** Unrefused deletions leave the registry without the doomed objects and otherwise as it was. */
  lemma {:induction false} UnrefusedClears(reg: Registry, calls: seq<Deletion>)
    requires NoneRefused(reg, calls)
    ensures DeleteAll(reg, calls) == reg - (set d | d in calls)
    decreases |calls|
  {
    if calls != [] {
      UnrefusedClears(Delete(reg, calls[0]), calls[1..]);
      assert (set d | d in calls) == {calls[0]} + set d | d in calls[1..];
    }
  }

  // ---- Reverse order of creation -------------------------------------------

  /** No object created earlier refers to one created later, and nothing outside the stack refers into it. */
  ghost predicate RefersBackwards(reg: Registry, stack: seq<Deletion>) {
    && (forall i, j | 0 <= i < j < |stack| :: stack[i] != stack[j])
    && (forall o, i | o in reg && 0 <= i < |stack| && stack[i] in reg && stack[i] in reg[o] && o != stack[i] ::
          exists j | i < j < |stack| :: stack[j] == o)
  }

  lemma {:induction false} LaterIsDeletedBy(stack: seq<Deletion>, i: nat, j: nat)
    requires i < j < |stack| && forall a, b | 0 <= a < b < |stack| :: stack[a] != stack[b]
    ensures DeletedBy(Reversed(stack), stack[j], stack[i])
    decreases |stack|
  {
    var calls, front := Reversed(stack), stack[..|stack| - 1];
    assert calls[0] == stack[|stack| - 1];
    assert calls[1..] == Reversed(front);
    if j < |stack| - 1 {
      LaterIsDeletedBy(front, i, j);
    }
  }

  /** When the created objects refer only to earlier ones, cleanup's reverse order never meets a referenced object
      and removes every object the run registered, and nothing else. */
  lemma ReverseOrderTearsDown(reg: Registry, stack: seq<Deletion>)
    requires RefersBackwards(reg, stack)
    ensures NoneRefused(reg, Reversed(stack))
    ensures DeleteAll(reg, Reversed(stack)) == reg - (set d | d in stack)
  {
    var calls := Reversed(stack);
    forall d ensures d in calls <==> d in stack {
      if d in calls {
        var k :| 0 <= k < |calls| && calls[k] == d;
        assert stack[|stack| - 1 - k] == d;
      }
      if d in stack {
        var k :| 0 <= k < |stack| && stack[k] == d;
        assert calls[|stack| - 1 - k] == d;
      }
    }
    forall o, d | o in reg && d in reg && d in reg[o] && d in calls && o != d ensures DeletedBy(calls, o, d) {
      var i :| 0 <= i < |stack| && stack[i] == d;
      var j :| i < j < |stack| && stack[j] == o;
      LaterIsDeletedBy(stack, i, j);
    }
    NoneRefusedIff(reg, calls);
    UnrefusedClears(reg, calls);
  }

  /** What is live but not on the stack blocks whatever it refers to. */
  lemma OutsideReferrerBlocks(reg: Registry, stack: seq<Deletion>, o: Deletion, d: Deletion)
    requires o in reg && d in reg && d in reg[o] && o != d
    requires o !in stack && d in stack
    ensures !NoneRefused(reg, Reversed(stack))
  {
    var calls := Reversed(stack);
    var k :| 0 <= k < |stack| && stack[k] == d;
    assert calls[|stack| - 1 - k] == d;
    forall i | 0 <= i < |calls| ensures calls[i] != o {
      assert calls[i] == stack[|stack| - 1 - i];
    }
    NeverDeleted(calls, o, d);
    NoneRefusedIff(reg, calls);
  }

  lemma {:induction false} NeverDeleted(calls: seq<Deletion>, o: Deletion, d: Deletion)
    requires o !in calls
    ensures !DeletedBy(calls, o, d)
  {
    if calls != [] {
      NeverDeleted(calls[1..], o, d);
    }
  }

  // ---- The registry a run leaves -------------------------------------------

  /** What executing a step does at the registrar, whatever it answers: nothing, a new object with the objects it
      refers to, or the removal of an object. */
  datatype Effect = Unchanged | Creates(d: Deletion, refs: set<Deletion>) | Removes(d: Deletion)

  function Apply(reg: Registry, e: Effect): Registry {
    match e
    case Unchanged => reg
    case Creates(d, refs) => reg[d := refs]
    case Removes(d) => reg - {d}
  }

  /** The registry after the first n steps. */
  function After(reg: Registry, effects: nat -> Effect, n: nat): Registry {
    if n == 0 then reg else Apply(After(reg, effects, n - 1), effects(n - 1))
  }

  /** A run as seen from the registry: the deletion each step names, how many steps passed and how many were
      executed, the registry before it, and what each step does there. */
  datatype Run = Run(names: nat -> seq<Deletion>, passed: nat, executed: nat, before: Registry, effects: nat -> Effect)

  function RunOf(s: Setup, before: Registry, effects: nat -> Effect): Run {
    var n := PassedSteps(s);
    Run(Deletions(s), n, if n < |s.steps| then n + 1 else n, before, effects)
  }

  /** The cleanup stack a run leaves. */
  function Stack(r: Run): seq<Deletion> {
    Gather(r.names, r.passed)
  }

  /** The registry a run leaves. */
  function Left(r: Run): Registry {
    After(r.before, r.effects, r.executed)
  }

  /** A create makes the object its step names, and the object refers only to live ones. */
  predicate Honest(r: Run, i: nat) {
    var e := r.effects(i);
    e.Creates? ==> r.names(i) == [e.d] && e.refs <= After(r.before, r.effects, i).Keys
  }

  predicate Apart(r: Run, i: nat, j: nat) {
    r.names(i) != [] ==> r.names(i) != r.names(j)
  }

  predicate Fresh(r: Run, i: nat) {
    r.names(i) != [] ==> r.names(i)[0] !in r.before
  }

  /** The steps of a run name fresh identities, creates refer only to live objects, and the registry before it has
      no dangling references. Which steps take effect, and what each object refers to, is free. */
  ghost predicate Orderly(r: Run) {
    && (forall i: nat :: |r.names(i)| <= 1)
    && (forall o | o in r.before :: r.before[o] <= r.before.Keys)
    && (forall i: nat | i < r.executed :: Honest(r, i) && Fresh(r, i))
    && (forall i: nat, j: nat | i < j < r.executed :: Apart(r, i, j))
  }

  /** Step k made the object, referring to `refs`. */
  ghost predicate MadeBy(effects: nat -> Effect, o: Deletion, refs: set<Deletion>, k: nat) {
    effects(k) == Creates(o, refs)
  }

  /** Where a live object comes from: it was there before the run, as it is now, or a step made it as it is now. */
  lemma {:induction false} Origin(before: Registry, effects: nat -> Effect, n: nat, o: Deletion)
    requires o in After(before, effects, n)
    ensures var refs := After(before, effects, n)[o];
            (o in before && refs == before[o]) || exists k: nat :: k < n && MadeBy(effects, o, refs, k)
  {
    if n > 0 {
      if effects(n - 1).Creates? && effects(n - 1).d == o {
        assert MadeBy(effects, o, After(before, effects, n)[o], n - 1);
      } else {
        Origin(before, effects, n - 1, o);
      }
    }
  }

  /** `src` lists the passed steps that registered something, in order, beside the stack. */
  ghost predicate SourcesOf(r: Run, src: seq<nat>) {
    && |src| == |Stack(r)|
    && (forall k | 0 <= k < |src| :: src[k] < r.passed && r.names(src[k]) == [Stack(r)[k]])
    && (forall j, k | 0 <= j < k < |src| :: src[j] < src[k])
    && (forall i: nat | i < r.passed :: i in src <==> r.names(i) != [])
  }

  lemma StackSources(r: Run) returns (src: seq<nat>)
    requires forall i: nat :: |r.names(i)| <= 1
    ensures SourcesOf(r, src)
  {
    src := Sources(r.names, r.passed);
    SourcesMeaning(r.names, r.passed);
  }

  /** What a passed step names is on the stack. */
  lemma OnStack(r: Run, src: seq<nat>, i: nat, d: Deletion) returns (p: nat)
    requires SourcesOf(r, src) && i < r.passed && r.names(i) == [d]
    ensures p < |src| && src[p] == i && Stack(r)[p] == d
  {
    assert i in src;
    p :| 0 <= p < |src| && src[p] == i;
  }

  lemma StackDistinct(r: Run, src: seq<nat>)
    requires Orderly(r) && SourcesOf(r, src) && r.passed <= r.executed
    ensures forall i, j | 0 <= i < j < |Stack(r)| :: Stack(r)[i] != Stack(r)[j]
  {
    forall i, j | 0 <= i < j < |Stack(r)| ensures Stack(r)[i] != Stack(r)[j] {
      assert Apart(r, src[i], src[j]);
    }
  }

  lemma StackFresh(r: Run, src: seq<nat>, p: nat)
    requires Orderly(r) && SourcesOf(r, src) && r.passed <= r.executed && p < |src|
    ensures Stack(r)[p] !in r.before
  {
    assert Fresh(r, src[p]);
  }

  lemma SameStep(r: Run, i: nat, j: nat)
    requires Orderly(r) && i < r.executed && j < r.executed && r.names(i) == r.names(j) != []
    ensures i == j
  {
    assert i < j ==> Apart(r, i, j);
    assert j < i ==> Apart(r, j, i);
  }

  /** The step that made a registered object is the one that registered it. */
  lemma RegisteredMaker(r: Run, src: seq<nat>, p: nat, k: nat)
    requires Orderly(r) && SourcesOf(r, src) && r.passed <= r.executed && p < |src| && k <= r.executed
    requires Stack(r)[p] in After(r.before, r.effects, k)
    ensures src[p] < k
  {
    var d := Stack(r)[p];
    StackFresh(r, src, p);
    Origin(r.before, r.effects, k, d);
    var m: nat :| m < k && MadeBy(r.effects, d, After(r.before, r.effects, k)[d], m);
    assert Honest(r, m);
    SameStep(r, m, src[p]);
  }

  /** A live object that refers to a registered one was made by a later step. */
  lemma ReferrerLater(r: Run, src: seq<nat>, o: Deletion, p: nat) returns (k: nat)
    requires Orderly(r) && SourcesOf(r, src) && r.passed <= r.executed && p < |src|
    requires o in Left(r) && Stack(r)[p] in Left(r)[o]
    ensures src[p] < k < r.executed && r.effects(k) == Creates(o, Left(r)[o]) && r.names(k) == [o]
  {
    StackFresh(r, src, p);
    Origin(r.before, r.effects, r.executed, o);
    assert o in r.before ==> r.before[o] <= r.before.Keys;
    k :| k < r.executed && MadeBy(r.effects, o, Left(r)[o], k);
    assert Honest(r, k);
    RegisteredMaker(r, src, p, k);
  }

  /** The step a run stopped at made an object that refers to something registered. */
  ghost predicate StoppedOnReferrer(r: Run) {
    r.passed < r.executed && r.effects(r.passed).Creates? && exists d :: d in r.effects(r.passed).refs && d in Stack(r)
  }

  /** A run executes what passes and at most one step more. */
  ghost predicate Stops(r: Run) {
    r.passed <= r.executed <= r.passed + 1
  }

  /** The registry an orderly run leaves refers backwards along its cleanup stack, unless the run stopped on a referrer. */
  lemma RunRefersBackwards(r: Run)
    requires Orderly(r) && Stops(r) && !StoppedOnReferrer(r)
    ensures RefersBackwards(Left(r), Stack(r))
  {
    var src := StackSources(r);
    StackDistinct(r, src);
    forall o, i | o in Left(r) && 0 <= i < |Stack(r)| && Stack(r)[i] in Left(r) && Stack(r)[i] in Left(r)[o] && o != Stack(r)[i]
      ensures exists j | i < j < |Stack(r)| :: Stack(r)[j] == o
    {
      var k := ReferrerLater(r, src, o, i);
      assert k != r.passed by {
        assert Stack(r)[i] in Stack(r);
      }
      var j := OnStack(r, src, k, o);
    }
  }

  /** The object made by the step a run stopped at is not on the stack. */
  lemma StoppedOutside(r: Run, src: seq<nat>)
    requires Orderly(r) && SourcesOf(r, src) && r.executed == r.passed + 1 && r.effects(r.passed).Creates?
    ensures r.effects(r.passed).d !in Stack(r)
  {
    assert Honest(r, r.passed);
    forall p | 0 <= p < |Stack(r)| ensures Stack(r)[p] != r.effects(r.passed).d {
      assert Apart(r, src[p], r.passed);
    }
  }

  /** A run that stopped on a referrer leaves that object live and unregistered, so something it refers to cannot go. */
  lemma StoppedRunBlocks(r: Run)
    requires Orderly(r) && Stops(r) && StoppedOnReferrer(r)
    ensures !NoneRefused(Left(r), Reversed(Stack(r)))
  {
    var src := StackSources(r);
    var e := r.effects(r.passed);
    StoppedOutside(r, src);
    var d :| d in e.refs && d in Stack(r);
    assert Honest(r, r.passed);
    assert Left(r) == After(r.before, r.effects, r.passed)[e.d := e.refs];
    OutsideReferrerBlocks(Left(r), Stack(r), e.d, d);
  }

  /** Cleanup after an orderly run meets a referenced object exactly when the run stopped at a create that took effect
      and refers to something registered. */
  lemma CleanupRefusedIff(s: Setup, before: Registry, effects: nat -> Effect)
    requires Orderly(RunOf(s, before, effects))
    ensures var r := RunOf(s, before, effects); !NoneRefused(Left(r), Reversed(Stack(r))) <==> StoppedOnReferrer(r)
  {
    var r := RunOf(s, before, effects);
    if StoppedOnReferrer(r) {
      StoppedRunBlocks(r);
    } else {
      RunRefersBackwards(r);
      ReverseOrderTearsDown(Left(r), Stack(r));
    }
  }

  /** Steps that remove nothing leave what was there before, and what is new is on the stack. */
  lemma {:induction false} OnlyRegisteredIsNew(r: Run, src: seq<nat>, n: nat)
    requires Orderly(r) && SourcesOf(r, src) && n <= r.passed <= r.executed
    requires forall i: nat | i < n :: !r.effects(i).Removes?
    ensures forall o | o in r.before :: o in After(r.before, r.effects, n) && After(r.before, r.effects, n)[o] == r.before[o]
    ensures forall o | o in After(r.before, r.effects, n) :: o in r.before || o in Stack(r)
  {
    if n > 0 {
      OnlyRegisteredIsNew(r, src, n - 1);
      var e := r.effects(n - 1);
      if e.Creates? {
        assert Honest(r, n - 1) && Fresh(r, n - 1);
        var p := OnStack(r, src, n - 1, e.d);
      }
    }
  }

  lemma RemovedRestores(before: Registry, left: Registry, stack: seq<Deletion>)
    requires forall o | o in before :: o in left && left[o] == before[o]
    requires forall o | o in left :: o in before || o in stack
    requires forall d | d in stack :: d !in before
    ensures left - (set d | d in stack) == before
  {
  }

  /** A run that leaves the registry its passed steps made, and in which those only created, is undone by cleanup. */
  lemma CleanupRestores(r: Run)
    requires Orderly(r) && Stops(r) && !StoppedOnReferrer(r)
    requires forall i: nat | i < r.passed :: !r.effects(i).Removes?
    requires Left(r) == After(r.before, r.effects, r.passed)
    ensures NoneRefused(Left(r), Reversed(Stack(r))) && DeleteAll(Left(r), Reversed(Stack(r))) == r.before
  {
    RunRefersBackwards(r);
    ReverseOrderTearsDown(Left(r), Stack(r));
    var src := StackSources(r);
    OnlyRegisteredIsNew(r, src, r.passed);
    forall d | d in Stack(r) ensures d !in r.before {
      var p :| 0 <= p < |Stack(r)| && Stack(r)[p] == d;
      StackFresh(r, src, p);
    }
    RemovedRestores(r.before, Left(r), Stack(r));
  }

  /** After an orderly run that removed nothing, and whose stopping step did nothing, cleanup is never refused and
      leaves the registry exactly as the run found it. */
  lemma ScenarioTearsDown(s: Setup, before: Registry, effects: nat -> Effect)
    requires Orderly(RunOf(s, before, effects))
    requires forall i: nat | i < PassedSteps(s) :: !effects(i).Removes?
    requires PassedSteps(s) < |s.steps| ==> effects(PassedSteps(s)).Unchanged?
    ensures var r := RunOf(s, before, effects);
            NoneRefused(Left(r), Reversed(Stack(r))) && DeleteAll(Left(r), Reversed(Stack(r))) == before
  {
    CleanupRestores(RunOf(s, before, effects));
  }

  // ---- A failed expectation, concretely ------------------------------------

  const HOST := Deletion(HostKind, "ns1.example")
  const DOMAIN := Deletion(DomainKind, "shop.example")

  /** Two creates that both succeed; the second was expected to be refused with 2302. */
  const UNEXPECTED_SUCCESS := Setup(
    "unexpected success",
    [Step("ns", "create_host", map[], None), Step("shop", "create_domain", map[], Some(Expect(2302, map[])))],
    map[], "run", {"create_host", "create_domain"},
    (i: nat, op: string, params: Entries) =>
      (Single(if i == 0 then Object(HostKind, "ns1.example", []) else Object(DomainKind, "shop.example", [])), None))

  const HOST_THEN_DOMAIN: nat -> Effect := (i: nat) => if i == 0 then Creates(HOST, {}) else Creates(DOMAIN, {HOST})

  lemma UnexpectedSuccessStops()
    ensures PassedSteps(UNEXPECTED_SUCCESS) == 1
  {
    assert Passing(UNEXPECTED_SUCCESS)(0) && !Passing(UNEXPECTED_SUCCESS)(1);
  }

  lemma UnexpectedSuccessNames()
    ensures Deletions(UNEXPECTED_SUCCESS)(0) == [HOST] && Deletions(UNEXPECTED_SUCCESS)(1) == [DOMAIN]
  {
  }

  /** Any run of two creates, of a host and then of a domain that refers to it, of which only the first passed. */
  lemma TwoCreates(r: Run)
    requires r.effects == HOST_THEN_DOMAIN && r.before == map[] && r.passed == 1 && r.executed == 2
    requires r.names(0) == [HOST] && r.names(1) == [DOMAIN] && forall i: nat :: |r.names(i)| <= 1
    ensures Orderly(r) && StoppedOnReferrer(r)
  {
    assert HOST.kind != DOMAIN.kind;
    assert After(r.before, r.effects, 1) == map[HOST := {}];
    assert Honest(r, 0) && Honest(r, 1) && Apart(r, 0, 1);
    assert Gather(r.names, 1) == [HOST];
    assert HOST in r.effects(1).refs && HOST in Stack(r);
  }

  lemma UnexpectedSuccessOrderly()
    ensures var r := RunOf(UNEXPECTED_SUCCESS, map[], HOST_THEN_DOMAIN); Orderly(r) && StoppedOnReferrer(r)
  {
    UnexpectedSuccessStops();
    UnexpectedSuccessNames();
    forall i: nat ensures |Deletions(UNEXPECTED_SUCCESS)(i)| <= 1 {
      AtMostOneDeletion(UNEXPECTED_SUCCESS, i);
    }
    TwoCreates(RunOf(UNEXPECTED_SUCCESS, map[], HOST_THEN_DOMAIN));
  }

  /** The domain is live but unregistered, its expectation having failed, so the host it refers to cannot be deleted. */
  lemma UnregisteredReferrerBlocks()
    ensures var r := RunOf(UNEXPECTED_SUCCESS, map[], HOST_THEN_DOMAIN);
            Orderly(r) && !NoneRefused(Left(r), Reversed(Stack(r)))
  {
    UnexpectedSuccessOrderly();
    CleanupRefusedIff(UNEXPECTED_SUCCESS, map[], HOST_THEN_DOMAIN);
  }
}
