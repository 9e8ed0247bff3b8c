/** The realm-wide SDK lock and the redirected key enumeration of
    src/sigbash-client-guard.ts, as transition systems over every interleaving
    of their promise callbacks. */
module SdkLock {
  import opened Wrappers
  import Sets

  // ----- exclusive -----

  datatype Phase = Waiting | Running | Done(ok: bool)

  /** One call of `exclusive`: the promise it waits for, the promise it releases. */
  datatype Call = Call(predecessor: nat, own: nat, phase: Phase)

  /** Promises are numbered as they are made; number 0 is resolved at start.
      `starts` logs the calls in the order their actions began. */
  datatype Lock = Lock(sdkTail: nat, promises: nat, resolved: set<nat>, calls: seq<Call>, starts: seq<nat>)

  datatype LockStep = Enter | Start(call: nat) | Finish(call: nat, ok: bool)

  function Fresh(): Lock { Lock(0, 1, {0}, [], []) }

  /** `None` when the step is not enabled. A throwing action releases as well. */
  function LockNext(s: Lock, step: LockStep): Option<Lock> {
    match step
    case Enter =>
      Some(s.(calls := s.calls + [Call(s.sdkTail, s.promises, Waiting)], sdkTail := s.promises, promises := s.promises + 1))
    case Start(i) =>
      if i < |s.calls| && s.calls[i].phase == Waiting && s.calls[i].predecessor in s.resolved
      then Some(s.(calls := s.calls[i := s.calls[i].(phase := Running)], starts := s.starts + [i]))
      else None
    case Finish(i, ok) =>
      if i < |s.calls| && s.calls[i].phase == Running
      then Some(s.(calls := s.calls[i := s.calls[i].(phase := Done(ok))], resolved := s.resolved + {s.calls[i].own}))
      else None
  }

  function LockRun(steps: seq<LockStep>): Option<Lock> {
    if steps == [] then Some(Fresh())
    else
      match LockRun(steps[..|steps| - 1])
      case None => None
      case Some(s) => LockNext(s, steps[|steps| - 1])
  }

  /** All calls before the m-th are done, the m-th may run, the later ones wait. */
  ghost predicate Queued(s: Lock, m: nat) {
    && m <= |s.calls|
    && s.sdkTail == |s.calls| && s.promises == |s.calls| + 1
    && (forall i | 0 <= i < |s.calls| :: s.calls[i].predecessor == i && s.calls[i].own == i + 1)
    && (forall i | 0 <= i < m :: s.calls[i].phase.Done?)
    && (m < |s.calls| ==> !s.calls[m].phase.Done?)
    && (forall i | m < i < |s.calls| :: s.calls[i].phase == Waiting)
    && (forall p: nat :: p in s.resolved <==> p <= m)
    && |s.starts| == m + (if m < |s.calls| && s.calls[m].phase == Running then 1 else 0)
    && (forall k | 0 <= k < |s.starts| :: s.starts[k] == k)
  }

  lemma LockStepKeepsQueue(s: Lock, m: nat, step: LockStep) returns (m': nat)
    requires Queued(s, m) && LockNext(s, step).Some?
    ensures Queued(LockNext(s, step).value, m')
    ensures m' == if step.Finish? then m + 1 else m
    ensures step.Start? || step.Finish? ==> step.call == m
  {
    m' := if step.Finish? then m + 1 else m;
    var t := LockNext(s, step).value;
    if step.Finish? {
      assert t.calls[m].phase.Done?;
    }
  }

  /** In every interleaving the calls form a queue, so at most one action runs,
      and actions start in call order. */
  lemma {:induction false} LockRunsQueue(steps: seq<LockStep>) returns (m: nat)
    requires LockRun(steps).Some?
    ensures Queued(LockRun(steps).value, m)
  {
    if steps == [] {
      m := 0;
    } else {
      var before := steps[..|steps| - 1];
      m := LockRunsQueue(before);
      m := LockStepKeepsQueue(LockRun(before).value, m, steps[|steps| - 1]);
    }
  }

  lemma MutualExclusion(steps: seq<LockStep>)
    requires LockRun(steps).Some?
    ensures var s := LockRun(steps).value;
            && (forall i, j | 0 <= i < |s.calls| && 0 <= j < |s.calls| && s.calls[i].phase == Running && s.calls[j].phase == Running :: i == j)
            && (forall k | 0 <= k < |s.starts| :: s.starts[k] == k)
  {
    var m := LockRunsQueue(steps);
  }

  /** Finishing, by success or failure, enables exactly the next waiting call. */
  lemma FinishFreesNext(steps: seq<LockStep>, i: nat, ok: bool, j: nat)
    requires LockRun(steps + [Finish(i, ok)]).Some?
    ensures var s := LockRun(steps + [Finish(i, ok)]).value;
            LockNext(s, Start(j)).Some? <==> j == i + 1 && j < |s.calls|
  {
    assert (steps + [Finish(i, ok)])[..|steps|] == steps;
    var m := LockRunsQueue(steps);
    m := LockStepKeepsQueue(LockRun(steps).value, m, Finish(i, ok));
    assert Queued(LockRun(steps + [Finish(i, ok)]).value, i + 1);
  }

  /** The lock never deadlocks: while a call is unfinished, one of them runs or
      can start. */
  lemma SomeCallProgresses(steps: seq<LockStep>, i: nat) returns (step: LockStep)
    requires LockRun(steps).Some? && i < |LockRun(steps).value.calls| && !LockRun(steps).value.calls[i].phase.Done?
    ensures !step.Enter? && LockNext(LockRun(steps).value, step).Some?
  {
    var s := LockRun(steps).value;
    var m := LockRunsQueue(steps);
    step := if s.calls[m].phase == Running then Finish(m, true) else Start(m);
  }

  // ----- listKeys -----

  const MAX_KEYS: nat := 64

  /** A redirected getKey: it fetches the key with two native clients in turn. */
  datatype TaskPhase = Queueing | FirstOpen | BetweenClients | SecondOpen | Fulfilled | Rejected

  datatype Task<K> = Task(key: K, phase: TaskPhase)

  datatype Client = Enumerator | First(task: nat) | Second(task: nat)

  datatype Listing = Unopened | Enumerating | Settled | Closed

  /** `awaited` counts the tasks made when listKeys settled: the `tail` its
      `finally` awaits. */
  datatype Session<K> = Session(listing: Listing, tasks: seq<Task<K>>, awaited: nat, failed: bool, count: nat, fetched: set<K>,
                                active: set<Client>, disposed: bool)

  /** The SDK may call getKey from the opening of the enumerator on, even after
      its listKeys has settled. A task begins when the one before it has settled;
      `usable` is the index check. */
  datatype ListStep<K> =
    | OpenEnumerator
    | GetKey(key: K)
    | Begin(task: nat, usable: bool)
    | FirstReturns(task: nat, ok: bool)
    | OpenSecond(task: nat)
    | SecondReturns(task: nat, ok: bool)
    | ListSettles
    | CloseEnumerator
    | Dispose

  predicate IsSettled<K>(t: Task<K>) { t.phase == Fulfilled || t.phase == Rejected }

  function SetPhase<K>(s: Session<K>, i: nat, phase: TaskPhase): Session<K>
    requires i < |s.tasks|
  {
    s.(tasks := s.tasks[i := s.tasks[i].(phase := phase)])
  }

  /** A rejected task marks the enumeration failed before the next one begins. */
  function Reject<K>(s: Session<K>, i: nat): Session<K>
    requires i < |s.tasks|
  {
    SetPhase(s, i, Rejected).(failed := true)
  }

  function BeginTask<K(==)>(s: Session<K>, i: nat, usable: bool): Session<K>
    requires i < |s.tasks|
  {
    if s.failed then Reject(s, i)
    else
      var counted := s.(count := s.count + 1);
      if counted.count > MAX_KEYS || s.tasks[i].key in s.fetched || !usable || s.disposed then Reject(counted, i)
      else SetPhase(counted, i, FirstOpen).(active := s.active + {First(i)})
  }

  function ListNext<K(==)>(s: Session<K>, step: ListStep<K>): Option<Session<K>> {
    match step
    case OpenEnumerator =>
      if s.listing == Unopened && !s.disposed then Some(s.(listing := Enumerating, active := s.active + {Enumerator})) else None
    case GetKey(key) =>
      if s.listing != Unopened then Some(s.(tasks := s.tasks + [Task(key, Queueing)])) else None
    case Begin(i, usable) =>
      if i < |s.tasks| && s.tasks[i].phase == Queueing && (i > 0 ==> IsSettled(s.tasks[i - 1]))
      then Some(BeginTask(s, i, usable))
      else None
    case FirstReturns(i, ok) =>
      if i < |s.tasks| && s.tasks[i].phase == FirstOpen
      then
        var closed := s.(active := s.active - {First(i)});
        Some(if ok && !s.disposed then SetPhase(closed, i, BetweenClients) else Reject(closed, i))
      else None
    case OpenSecond(i) =>
      if i < |s.tasks| && s.tasks[i].phase == BetweenClients
      then Some(if s.disposed then Reject(s, i) else SetPhase(s, i, SecondOpen).(active := s.active + {Second(i)}))
      else None
    case SecondReturns(i, ok) =>
      if i < |s.tasks| && s.tasks[i].phase == SecondOpen
      then
        var closed := s.(active := s.active - {Second(i)});
        Some(if ok && !s.disposed then SetPhase(closed, i, Fulfilled).(fetched := s.fetched + {s.tasks[i].key}) else Reject(closed, i))
      else None
    case ListSettles =>
      if s.listing == Enumerating then Some(s.(listing := Settled, awaited := |s.tasks|)) else None
    case CloseEnumerator =>
      // the native client closes once the awaited tail has settled
      if s.listing == Settled && s.awaited <= |s.tasks| && (s.awaited == 0 || IsSettled(s.tasks[s.awaited - 1]))
      then Some(s.(listing := Closed, active := s.active - {Enumerator}))
      else None
    case Dispose => Some(s.(disposed := true, active := {}))
  }

  function NoSession<K>(): Session<K> { Session(Unopened, [], 0, false, 0, {}, {}, false) }

  function ListRun<K(==)>(steps: seq<ListStep<K>>): Option<Session<K>> {
    if steps == [] then Some(NoSession())
    else
      match ListRun(steps[..|steps| - 1])
      case None => None
      case Some(s) => ListNext(s, steps[|steps| - 1])
  }

  /** Tasks settle in call order behind the m-th; the m-th alone may hold a
      client; keys fetched are those of the fulfilled tasks, each once. */
  ghost predicate InTurn<K>(s: Session<K>, m: nat) {
    && m <= |s.tasks|
    && (forall i | 0 <= i < m :: IsSettled(s.tasks[i]))
    && (m < |s.tasks| ==> !IsSettled(s.tasks[m]))
    && (forall i | m < i < |s.tasks| :: s.tasks[i].phase == Queueing)
    && (s.listing == Unopened ==> s.tasks == [])
    && s.awaited <= |s.tasks|
    && (s.listing == Closed ==> s.awaited <= m)
  }

  /** A getKey call came after listKeys had settled. */
  predicate Late<K>(s: Session<K>) { (s.listing == Settled || s.listing == Closed) && |s.tasks| > s.awaited }

  ghost predicate Holding<K>(s: Session<K>, m: nat) {
    && (forall i :: First(i) in s.active ==> i == m && m < |s.tasks| && s.tasks[m].phase == FirstOpen)
    && (forall i :: Second(i) in s.active ==> i == m && m < |s.tasks| && s.tasks[m].phase == SecondOpen)
    && (Enumerator in s.active ==> s.listing == Enumerating || s.listing == Settled)
    && (!s.disposed && (s.listing == Enumerating || s.listing == Settled) ==> Enumerator in s.active)
    && (s.disposed ==> s.active == {})
  }

  /** At most 64 keys, each fetched once, by as many fulfilled tasks; and after a
      failure no task holds a client. */
  ghost predicate Counted<K>(s: Session<K>, m: nat) {
    && m <= |s.tasks|
    && |s.fetched| <= s.count
    && (!s.failed ==> s.count <= MAX_KEYS)
    && (s.failed ==> m == |s.tasks| || s.tasks[m].phase == Queueing)
    && (m < |s.tasks| && s.tasks[m].phase != Queueing ==> |s.fetched| < s.count <= MAX_KEYS && s.tasks[m].key !in s.fetched)
    && |s.fetched| <= MAX_KEYS
    && (forall i | 0 <= i < |s.tasks| && s.tasks[i].phase == Fulfilled :: s.tasks[i].key in s.fetched)
    && (forall i, j | 0 <= i < j < |s.tasks| && s.tasks[i].phase == Fulfilled && s.tasks[j].phase == Fulfilled ::
          s.tasks[i].key != s.tasks[j].key)
  }

  ghost function Turn<K>(s: Session<K>, m: nat): nat
  {
    if m < |s.tasks| && IsSettled(s.tasks[m]) then m + 1 else m
  }

  /** Only the m-th task can move, unless one is appended. */
  lemma StepIsInTurn<K>(s: Session<K>, m: nat, step: ListStep<K>)
    requires InTurn(s, m) && ListNext(s, step).Some?
    ensures step.Begin? || step.FirstReturns? || step.OpenSecond? || step.SecondReturns? ==> step.task == m < |s.tasks|
    ensures var t := ListNext(s, step).value;
            && |t.tasks| == |s.tasks| + (if step.GetKey? then 1 else 0)
            && (forall i | 0 <= i < |s.tasks| && i != m :: t.tasks[i] == s.tasks[i])
            && (step.GetKey? ==> t.tasks[|s.tasks|].phase == Queueing)
            && (step.CloseEnumerator? ==> s.awaited <= m)
  {
  }

  lemma ListStepKeepsTurn<K>(s: Session<K>, m: nat, step: ListStep<K>)
    requires InTurn(s, m) && ListNext(s, step).Some?
    ensures InTurn(ListNext(s, step).value, Turn(ListNext(s, step).value, m))
  {
    StepIsInTurn(s, m, step);
  }

  /** A step of the m-th task, as opposed to one of the enumerator. */
  predicate OfTask<K>(step: ListStep<K>) { step.Begin? || step.FirstReturns? || step.OpenSecond? || step.SecondReturns? }

  lemma TaskStepKeepsHolding<K>(s: Session<K>, m: nat, step: ListStep<K>)
    requires InTurn(s, m) && Holding(s, m) && ListNext(s, step).Some? && OfTask(step)
    ensures Holding(ListNext(s, step).value, Turn(ListNext(s, step).value, m))
  {
    StepIsInTurn(s, m, step);
  }

  lemma ListStepKeepsHolding<K>(s: Session<K>, m: nat, step: ListStep<K>)
    requires InTurn(s, m) && Holding(s, m) && ListNext(s, step).Some?
    ensures Holding(ListNext(s, step).value, Turn(ListNext(s, step).value, m))
  {
    StepIsInTurn(s, m, step);
    if OfTask(step) {
      TaskStepKeepsHolding(s, m, step);
    }
  }

  lemma BeginKeepsCount<K>(s: Session<K>, m: nat, step: ListStep<K>)
    requires InTurn(s, m) && Counted(s, m) && ListNext(s, step).Some? && step.Begin?
    ensures Counted(ListNext(s, step).value, Turn(ListNext(s, step).value, m))
  {
    StepIsInTurn(s, m, step);
  }

  lemma ReturnKeepsCount<K>(s: Session<K>, m: nat, step: ListStep<K>)
    requires InTurn(s, m) && Counted(s, m) && ListNext(s, step).Some? && OfTask(step) && !step.Begin?
    ensures Counted(ListNext(s, step).value, Turn(ListNext(s, step).value, m))
  {
    StepIsInTurn(s, m, step);
  }

  lemma ListStepKeepsCount<K>(s: Session<K>, m: nat, step: ListStep<K>)
    requires InTurn(s, m) && Counted(s, m) && ListNext(s, step).Some?
    ensures Counted(ListNext(s, step).value, Turn(ListNext(s, step).value, m))
  {
    StepIsInTurn(s, m, step);
    if step.Begin? {
      BeginKeepsCount(s, m, step);
    } else if OfTask(step) {
      ReturnKeepsCount(s, m, step);
    }
  }

  lemma {:induction false} ListRunsInTurn<K>(steps: seq<ListStep<K>>) returns (m: nat)
    requires ListRun(steps).Some?
    ensures InTurn(ListRun(steps).value, m) && Holding(ListRun(steps).value, m) && Counted(ListRun(steps).value, m)
  {
    if steps == [] {
      m := 0;
    } else {
      var before := steps[..|steps| - 1];
      m := ListRunsInTurn(before);
      var s, step := ListRun(before).value, steps[|steps| - 1];
      hide InTurn, Holding, Counted, ListNext;
      ListStepKeepsTurn(s, m, step);
      ListStepKeepsHolding(s, m, step);
      ListStepKeepsCount(s, m, step);
      m := Turn(ListNext(s, step).value, m);
    }
  }

  /** At most one retrieval client is open, and none once the guard is disposed.
      Unless a getKey call came after listKeys had settled, it is open only
      beside the enumerator, and nothing outlives the enumeration. */
  lemma AtMostOneRetrieval<K>(steps: seq<ListStep<K>>)
    requires ListRun(steps).Some?
    ensures var s := ListRun(steps).value;
            && (forall c, d | c in s.active && d in s.active && c != Enumerator && d != Enumerator :: c == d)
            && |s.active| <= 2
            && (s.disposed ==> s.active == {})
            && (!Late(s) ==>
                  && (forall c | c in s.active && c != Enumerator :: Enumerator in s.active)
                  && (s.listing == Closed ==> s.active == {}))
  {
    var m := ListRunsInTurn(steps);
    HeldClients(ListRun(steps).value, m);
  }

  lemma HeldClients<K>(s: Session<K>, m: nat)
    requires InTurn(s, m) && Holding(s, m)
    ensures forall c, d | c in s.active && d in s.active && c != Enumerator && d != Enumerator :: c == d
    ensures |s.active| <= 2
    ensures s.disposed ==> s.active == {}
    ensures !Late(s) ==> forall c | c in s.active && c != Enumerator :: Enumerator in s.active
    ensures !Late(s) && s.listing == Closed ==> s.active == {}
  {
    forall c | c in s.active ensures c == Enumerator || c == First(m) || c == Second(m) {
    }
    var bound := if First(m) in s.active then {Enumerator, First(m)} else {Enumerator, Second(m)};
    assert s.active <= bound;
    Sets.SubsetSize(s.active, bound);
    if !Late(s) && s.listing == Closed {
      assert forall c :: c !in s.active;
    }
  }

  /** The condition is needed: after an enumeration has closed without a late
      call, one more getKey opens a client in its turn exactly when nothing has
      failed or been disposed, fewer than 64 keys were asked for, and the key is
      a new one. */
  lemma LateCallOutlives<K>(steps: seq<ListStep<K>>, key: K)
    requires ListRun(steps).Some? && ListRun(steps).value.listing == Closed && !Late(ListRun(steps).value)
    ensures var s := ListRun(steps).value;
            var run := ListRun(steps + [GetKey(key)] + [Begin(|s.tasks|, true)]);
            && run.Some? && run.value.listing == Closed
            && (run.value.active != {} <==> !s.failed && !s.disposed && s.count < 64 && key !in s.fetched)
  {
    var m := ListRunsInTurn(steps);
    var s := ListRun(steps).value;
    HeldClients(s, m);
    OneMore(steps, GetKey(key));
    OneMore(steps + [GetKey(key)], Begin(|s.tasks|, true));
  }

  lemma OneMore<K>(steps: seq<ListStep<K>>, step: ListStep<K>)
    requires ListRun(steps).Some?
    ensures ListRun(steps + [step]) == ListNext(ListRun(steps).value, step)
  {
    assert (steps + [step])[..|steps|] == steps;
  }

  /** Whatever the SDK's order of calls, keys come back at most once each and at
      most 64 of them. */
  lemma KeysAreDistinct<K>(steps: seq<ListStep<K>>)
    requires ListRun(steps).Some?
    ensures var s := ListRun(steps).value;
            && |s.fetched| <= 64
            && (forall i, j | 0 <= i < j < |s.tasks| && s.tasks[i].phase == Fulfilled && s.tasks[j].phase == Fulfilled ::
                  s.tasks[i].key != s.tasks[j].key)
  {
    var m := ListRunsInTurn(steps);
  }

  /** The enumeration never deadlocks: from opening to closing some callback
      other than a new getKey or a disposal can always run. */
  lemma EnumerationProgresses<K>(steps: seq<ListStep<K>>) returns (step: ListStep<K>)
    requires ListRun(steps).Some?
    requires var s := ListRun(steps).value; s.listing == Enumerating || s.listing == Settled
    ensures ListNext(ListRun(steps).value, step).Some? && !step.GetKey? && !step.Dispose?
  {
    var m := ListRunsInTurn(steps);
    var s := ListRun(steps).value;
    step :=
      if s.listing == Settled && s.awaited <= m then CloseEnumerator
      else if m == |s.tasks| then ListSettles
      else match s.tasks[m].phase
           case Queueing => Begin(m, true)
           case FirstOpen => FirstReturns(m, true)
           case BetweenClients => OpenSecond(m)
           case _ => SecondReturns(m, true);
  }
}
