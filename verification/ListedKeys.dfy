/** What listKeys of the guarded client delivers (src/sigbash-client-guard.ts):
    which retrievals succeed, read off the history of a run. */
module ListedKeys {
  import opened Wrappers
  import opened SdkLock

  /** The keys asked for, in order. */
  function Asked<K>(steps: seq<ListStep<K>>): seq<K> {
    if steps == [] then []
    else Asked(steps[..|steps| - 1]) + match steps[|steps| - 1] case GetKey(key) => [key] case _ => []
  }

  /** The second client of the task answered well, and nothing was disposed before. */
  ghost predicate Answered<K>(steps: seq<ListStep<K>>, i: nat) {
    exists p | 0 <= p < |steps| :: steps[p] == SecondReturns(i, true) && Dispose !in steps[..p]
  }

  predicate Went<K>(t: Task<K>) { t.phase != Queueing && t.phase != Rejected }

  ghost predicate Keyed<K>(steps: seq<ListStep<K>>, s: Session<K>) {
    && |Asked(steps)| == |s.tasks|
    && (forall i | 0 <= i < |s.tasks| :: s.tasks[i].key == Asked(steps)[i])
    && (s.disposed <==> Dispose in steps)
  }

  /** Failure and the fetched keys are those of the tasks. */
  ghost predicate Tallied<K(!new)>(s: Session<K>, m: nat) {
    && (s.failed <==> exists i | 0 <= i < |s.tasks| :: s.tasks[i].phase == Rejected)
    && (!s.failed ==> s.count == if m < |s.tasks| && s.tasks[m].phase != Queueing then m + 1 else m)
    && (forall k :: k in s.fetched <==> exists i | 0 <= i < |s.tasks| :: s.tasks[i].phase == Fulfilled && s.tasks[i].key == k)
  }

  /** A task that got a client came after fulfilled tasks only. */
  ghost predicate Earned<K>(s: Session<K>) {
    forall i | 0 <= i < |s.tasks| && Went(s.tasks[i]) ::
      && i < 64
      && forall j | 0 <= j < i :: s.tasks[j].phase == Fulfilled && s.tasks[j].key != s.tasks[i].key
  }

  ghost predicate Witnessed<K>(steps: seq<ListStep<K>>, s: Session<K>) {
    && (forall i: nat :: Answered(steps, i) ==> i < |s.tasks|)
    && forall i | 0 <= i < |s.tasks| ::
      && (Went(s.tasks[i]) ==> Begin(i, true) in steps)
      && (Went(s.tasks[i]) && s.tasks[i].phase != FirstOpen ==> FirstReturns(i, true) in steps)
      && (s.tasks[i].phase == Fulfilled <==> Answered(steps, i))
  }

  lemma StepKeyed<K(!new)>(before: seq<ListStep<K>>, s: Session<K>, step: ListStep<K>)
    requires Keyed(before, s) && ListNext(s, step).Some?
    ensures Keyed(before + [step], ListNext(s, step).value)
  {
    var steps := before + [step];
    assert steps[..|steps| - 1] == before;
  }

  lemma StepTallied<K(!new)>(s: Session<K>, m: nat, step: ListStep<K>)
    requires InTurn(s, m) && Tallied(s, m) && ListNext(s, step).Some?
    ensures var t := ListNext(s, step).value; Tallied(t, Turn(t, m))
  {
    hide ListNext, InTurn, Turn;
    StepFailed(s, m, step);
    StepCounted(s, m, step);
    StepFetched(s, m, step);
  }

  predicate Lost<K>(s: Session<K>, i: int) { 0 <= i < |s.tasks| && s.tasks[i].phase == Rejected }

  /** A step rejects the m-th task, marking the failure, or no task. */
  lemma StepLoses<K(!new)>(s: Session<K>, m: nat, step: ListStep<K>)
    requires InTurn(s, m) && ListNext(s, step).Some?
    ensures var t := ListNext(s, step).value;
            && (forall i {:trigger Lost(t, i)} | i != m :: Lost(t, i) <==> Lost(s, i))
            && !Lost(s, m)
            && t.failed == (s.failed || Lost(t, m))
  {
    StepIsInTurn(s, m, step);
  }

  lemma StepFailed<K(!new)>(s: Session<K>, m: nat, step: ListStep<K>)
    requires InTurn(s, m) && Tallied(s, m) && ListNext(s, step).Some?
    ensures var t := ListNext(s, step).value; t.failed <==> exists i | 0 <= i < |t.tasks| :: t.tasks[i].phase == Rejected
  {
    StepLoses(s, m, step);
    var t := ListNext(s, step).value;
    hide ListNext, InTurn;
    if t.failed {
      if s.failed {
        var i :| 0 <= i < |s.tasks| && s.tasks[i].phase == Rejected;
        assert Lost(s, i) && Lost(t, i);
      } else {
        assert Lost(t, m);
      }
    }
    if i :| 0 <= i < |t.tasks| && t.tasks[i].phase == Rejected {
      assert Lost(t, i);
      assert i != m ==> Lost(s, i);
    }
  }

  lemma StepCounted<K(!new)>(s: Session<K>, m: nat, step: ListStep<K>)
    requires InTurn(s, m) && Tallied(s, m) && ListNext(s, step).Some?
    ensures var t, n := ListNext(s, step).value, Turn(ListNext(s, step).value, m);
            !t.failed ==> t.count == if n < |t.tasks| && t.tasks[n].phase != Queueing then n + 1 else n
  {
    StepIsInTurn(s, m, step);
  }

  predicate Won<K>(s: Session<K>, i: int) { 0 <= i < |s.tasks| && s.tasks[i].phase == Fulfilled }

  /** A step fulfils the m-th task, adding its key, or no task and no key. */
  lemma StepWins<K(!new)>(s: Session<K>, m: nat, step: ListStep<K>)
    requires InTurn(s, m) && ListNext(s, step).Some?
    ensures var t := ListNext(s, step).value;
            && |s.tasks| <= |t.tasks|
            && (forall i | 0 <= i < |s.tasks| :: t.tasks[i].key == s.tasks[i].key)
            && (forall i {:trigger Won(t, i)} | i != m :: Won(t, i) <==> Won(s, i))
            && !Won(s, m)
            && t.fetched == if Won(t, m) then s.fetched + {t.tasks[m].key} else s.fetched
  {
    StepIsInTurn(s, m, step);
  }

  lemma StepFetched<K(!new)>(s: Session<K>, m: nat, step: ListStep<K>)
    requires InTurn(s, m) && Tallied(s, m) && ListNext(s, step).Some?
    ensures var t := ListNext(s, step).value;
            forall k :: k in t.fetched <==> exists i | 0 <= i < |t.tasks| :: t.tasks[i].phase == Fulfilled && t.tasks[i].key == k
  {
    StepWins(s, m, step);
    var t := ListNext(s, step).value;
    hide ListNext, InTurn;
    forall k ensures k in t.fetched <==> exists i | 0 <= i < |t.tasks| :: t.tasks[i].phase == Fulfilled && t.tasks[i].key == k {
      if k in t.fetched {
        if k in s.fetched {
          var i :| 0 <= i < |s.tasks| && s.tasks[i].phase == Fulfilled && s.tasks[i].key == k;
          assert Won(s, i) && Won(t, i);
        } else {
          assert Won(t, m);
        }
      }
      if i :| 0 <= i < |t.tasks| && t.tasks[i].phase == Fulfilled && t.tasks[i].key == k {
        assert Won(t, i);
        assert i != m ==> Won(s, i);
      }
    }
  }

  lemma StepEarned<K(!new)>(s: Session<K>, m: nat, step: ListStep<K>)
    requires InTurn(s, m) && Tallied(s, m) && Earned(s) && ListNext(s, step).Some?
    ensures Earned(ListNext(s, step).value)
  {
    StepIsInTurn(s, m, step);
  }

  lemma AnsweredStep<K(!new)>(before: seq<ListStep<K>>, step: ListStep<K>, i: nat)
    ensures Answered(before + [step], i) <==>
              Answered(before, i) || (step == SecondReturns(i, true) && Dispose !in before)
  {
    var steps := before + [step];
    assert steps[..|before|] == before;
    forall p | 0 <= p < |before| ensures steps[..p] == before[..p] && steps[p] == before[p] {
    }
  }

  lemma StepWitnessed<K(!new)>(before: seq<ListStep<K>>, s: Session<K>, m: nat, step: ListStep<K>)
    requires InTurn(s, m) && Keyed(before, s) && Witnessed(before, s) && ListNext(s, step).Some?
    ensures Witnessed(before + [step], ListNext(s, step).value)
  {
    hide Answered;
    StepIsInTurn(s, m, step);
    forall i: nat ensures Answered(before + [step], i) <==> Answered(before, i) || (step == SecondReturns(i, true) && Dispose !in before) {
      AnsweredStep(before, step, i);
    }
  }

  /** What a history says about the session it led to. */
  ghost predicate Recorded<K(!new)>(steps: seq<ListStep<K>>, s: Session<K>, m: nat) {
    InTurn(s, m) && Keyed(steps, s) && Tallied(s, m) && Earned(s) && Witnessed(steps, s)
  }

  lemma NothingRecorded<K(!new)>()
    ensures Recorded([], NoSession<K>(), 0)
  {
  }

  lemma StepRecorded<K(!new)>(before: seq<ListStep<K>>, s: Session<K>, m: nat, step: ListStep<K>)
    requires Recorded(before, s, m) && ListNext(s, step).Some?
    ensures var t := ListNext(s, step).value; Recorded(before + [step], t, Turn(t, m))
  {
    hide InTurn, Keyed, Tallied, Earned, Witnessed, ListNext, Turn;
    ListStepKeepsTurn(s, m, step);
    StepKeyed(before, s, step);
    StepTallied(s, m, step);
    StepEarned(s, m, step);
    StepWitnessed(before, s, m, step);
  }

  lemma RunSplits<K>(steps: seq<ListStep<K>>)
    requires ListRun(steps).Some? && steps != []
    ensures var before, step := steps[..|steps| - 1], steps[|steps| - 1];
            steps == before + [step] && ListRun(before).Some? && ListNext(ListRun(before).value, step) == ListRun(steps)
  {
  }

  lemma {:induction false} RunIsRecorded<K(!new)>(steps: seq<ListStep<K>>) returns (m: nat)
    requires ListRun(steps).Some?
    ensures Recorded(steps, ListRun(steps).value, m)
  {
    hide Recorded, ListNext, Turn;
    if steps == [] {
      m := 0;
      NothingRecorded<K>();
    } else {
      RunSplits(steps);
      hide ListRun;
      var before, step := steps[..|steps| - 1], steps[|steps| - 1];
      m := RunIsRecorded(before);
      var s := ListRun(before).value;
      StepRecorded(before, s, m, step);
      m := Turn(ListNext(s, step).value, m);
    }
  }

  /** A retrieval succeeds exactly when it is among the first 64, no key was asked
      for twice up to it, and it and every one before it began usable and had
      both clients answer well before any disposal. The fetched keys are those of
      the successful retrievals, and the enumeration failed exactly when some
      retrieval was rejected. */
  lemma FulfilledExactly<K(!new)>(steps: seq<ListStep<K>>, i: nat)
    requires ListRun(steps).Some? && i < |ListRun(steps).value.tasks|
    ensures |Asked(steps)| == |ListRun(steps).value.tasks|
    ensures ListRun(steps).value.tasks[i].phase == Fulfilled <==>
              && i < 64
              && (forall j, k | 0 <= j < k <= i :: Asked(steps)[j] != Asked(steps)[k])
              && forall j: nat | j <= i :: Begin(j, true) in steps && FirstReturns(j, true) in steps && Answered(steps, j)
    ensures var s := ListRun(steps).value;
            && (forall k :: k in s.fetched <==> exists j | 0 <= j < |s.tasks| :: s.tasks[j].phase == Fulfilled && Asked(steps)[j] == k)
            && (s.failed <==> exists j | 0 <= j < |s.tasks| :: s.tasks[j].phase == Rejected)
  {
    hide Answered, Asked, ListRun;
    var m := RunIsRecorded(steps);
    var s := ListRun(steps).value;
    if s.tasks[i].phase == Fulfilled {
      FulfilledWas(steps, s, i);
    }
  }

  lemma FulfilledWas<K(!new)>(steps: seq<ListStep<K>>, s: Session<K>, i: nat)
    requires Keyed(steps, s) && Earned(s) && Witnessed(steps, s) && i < |s.tasks| && s.tasks[i].phase == Fulfilled
    ensures i < 64 && forall j, k | 0 <= j < k <= i :: Asked(steps)[j] != Asked(steps)[k]
    ensures forall j: nat | j <= i :: Begin(j, true) in steps && FirstReturns(j, true) in steps && Answered(steps, j)
  {
    hide Answered, Asked;
    forall j: nat | j <= i ensures s.tasks[j].phase == Fulfilled {
      assert Went(s.tasks[i]);
    }
    forall j, k | 0 <= j < k <= i ensures Asked(steps)[j] != Asked(steps)[k] {
      assert Went(s.tasks[k]);
    }
  }

  // ----- what a retrieval comes to -----

  /** A retrieval from its start: refused at once, or one client and, if that
      answers well, a second. */
  function Retrieval<K>(i: nat, usable: bool, fit: bool, first: bool, second: bool): seq<ListStep<K>> {
    if !fit then [Begin(i, usable)]
    else if !first then [Begin(i, usable), FirstReturns(i, false)]
    else [Begin(i, usable), FirstReturns(i, true), OpenSecond(i), SecondReturns(i, second)]
  }

  function RunFrom<K(==)>(s: Session<K>, steps: seq<ListStep<K>>): Option<Session<K>> {
    if steps == [] then Some(s)
    else
      match RunFrom(s, steps[..|steps| - 1])
      case None => None
      case Some(t) => ListNext(t, steps[|steps| - 1])
  }

  lemma {:induction false} RunOn<K>(before: seq<ListStep<K>>, steps: seq<ListStep<K>>)
    requires ListRun(before).Some?
    ensures ListRun(before + steps) == RunFrom(ListRun(before).value, steps)
  {
    if steps == [] {
      assert before + steps == before;
    } else {
      RunOn(before, steps[..|steps| - 1]);
      assert (before + steps)[..|before + steps| - 1] == before + steps[..|steps| - 1];
    }
  }

  lemma FourSteps<K>(s: Session<K>, a: ListStep<K>, b: ListStep<K>, c: ListStep<K>, d: ListStep<K>)
    ensures RunFrom(s, [a]) == ListNext(s, a)
    ensures RunFrom(s, [a]).Some? ==> RunFrom(s, [a, b]) == ListNext(RunFrom(s, [a]).value, b)
    ensures RunFrom(s, [a, b]).Some? ==> RunFrom(s, [a, b, c]) == ListNext(RunFrom(s, [a, b]).value, c)
    ensures RunFrom(s, [a, b, c]).Some? ==> RunFrom(s, [a, b, c, d]) == ListNext(RunFrom(s, [a, b, c]).value, d)
  {
    hide ListNext;
    assert [a][..0] == [] && [a, b][..1] == [a] && [a, b, c][..2] == [a, b] && [a, b, c, d][..3] == [a, b, c];
  }

  predicate Fit<K(==)>(s: Session<K>, key: K, usable: bool) {
    !s.failed && !s.disposed && s.count < 64 && key !in s.fetched && usable
  }

  /** The session once the retrieval of `key` by task i has ended. */
  function Ended<K(==)>(s: Session<K>, i: nat, key: K, won: bool): Session<K>
    requires i < |s.tasks|
  {
    s.(tasks := s.tasks[i := Task(key, if won then Fulfilled else Rejected)],
       fetched := if won then s.fetched + {key} else s.fetched,
       failed := !won,
       count := if s.failed then s.count else s.count + 1)
  }

  predicate Next<K>(s: Session<K>, i: nat) {
    && i < |s.tasks| && s.tasks[i].phase == Queueing && (i > 0 ==> IsSettled(s.tasks[i - 1]))
    && First(i) !in s.active && Second(i) !in s.active
  }

  lemma UnfitEnds<K>(s: Session<K>, i: nat, usable: bool)
    requires Next(s, i) && !Fit(s, s.tasks[i].key, usable)
    ensures ListNext(s, Begin(i, usable)) == Some(Ended(s, i, s.tasks[i].key, false))
  {
  }

  /** The session with the first client of the task open, and between its clients. */
  function WithFirst<K>(s: Session<K>, i: nat): Session<K>
    requires i < |s.tasks|
  {
    SetPhase(s, i, FirstOpen).(count := s.count + 1, active := s.active + {First(i)})
  }

  function Between<K>(s: Session<K>, i: nat): Session<K>
    requires i < |s.tasks|
  {
    SetPhase(s, i, BetweenClients).(count := s.count + 1)
  }

  lemma FitBegins<K>(s: Session<K>, i: nat, first: bool)
    requires Next(s, i) && Fit(s, s.tasks[i].key, true)
    ensures ListNext(s, Begin(i, true)) == Some(WithFirst(s, i))
    ensures ListNext(WithFirst(s, i), FirstReturns(i, first))
            == Some(if first then Between(s, i) else Ended(s, i, s.tasks[i].key, false))
  {
    var key := s.tasks[i].key;
    assert s.active + {First(i)} - {First(i)} == s.active;
    assert s.tasks[i := Task(key, FirstOpen)][i := Task(key, BetweenClients)] == s.tasks[i := Task(key, BetweenClients)];
    assert s.tasks[i := Task(key, FirstOpen)][i := Task(key, Rejected)] == s.tasks[i := Task(key, Rejected)];
  }

  lemma SecondEnds<K>(s: Session<K>, i: nat, second: bool)
    requires Next(s, i) && Fit(s, s.tasks[i].key, true)
    ensures var open := ListNext(Between(s, i), OpenSecond(i));
            open.Some? && ListNext(open.value, SecondReturns(i, second)) == Some(Ended(s, i, s.tasks[i].key, second))
  {
    var key, last := s.tasks[i].key, Task(s.tasks[i].key, if second then Fulfilled else Rejected);
    assert s.active + {Second(i)} - {Second(i)} == s.active;
    assert s.tasks[i := Task(key, BetweenClients)][i := Task(key, SecondOpen)][i := last] == s.tasks[i := last];
  }

  lemma RetrievalEnds<K>(s: Session<K>, i: nat, usable: bool, first: bool, second: bool)
    requires Next(s, i)
    ensures var key := s.tasks[i].key;
            RunFrom(s, Retrieval(i, usable, Fit(s, key, usable), first, second))
            == Some(Ended(s, i, key, Fit(s, key, usable) && first && second))
  {
    var key := s.tasks[i].key;
    FourSteps(s, Begin(i, usable), FirstReturns(i, first), OpenSecond(i), SecondReturns(i, second));
    if Fit(s, key, usable) {
      FitBegins(s, i, first);
      SecondEnds(s, i, second);
    } else {
      UnfitEnds(s, i, usable);
    }
    hide ListNext, RunFrom, WithFirst, Between, Ended;
  }

  lemma NextIsNext<K>(steps: seq<ListStep<K>>, i: nat)
    requires ListRun(steps).Some? && i < |ListRun(steps).value.tasks|
    requires ListRun(steps).value.tasks[i].phase == Queueing && (i > 0 ==> IsSettled(ListRun(steps).value.tasks[i - 1]))
    ensures Next(ListRun(steps).value, i)
  {
    hide ListRun, Counted;
    var m := ListRunsInTurn(steps);
    assert m == i;
  }

  /** At any point of any run the next retrieval goes through to its end, and it
      succeeds exactly when nothing failed or was disposed, fewer than 64 keys
      were asked for, its key is new and usable, and both clients answer well.
      It then adds its key to the fetched ones, and otherwise marks a failure. */
  lemma RetrievalOutcome<K>(steps: seq<ListStep<K>>, i: nat, usable: bool, first: bool, second: bool)
    requires ListRun(steps).Some? && i < |ListRun(steps).value.tasks|
    requires ListRun(steps).value.tasks[i].phase == Queueing && (i > 0 ==> IsSettled(ListRun(steps).value.tasks[i - 1]))
    ensures var s := ListRun(steps).value;
            var key := s.tasks[i].key;
            var fit := !s.failed && !s.disposed && s.count < 64 && key !in s.fetched && usable;
            var won := fit && first && second;
            ListRun(steps + Retrieval(i, usable, fit, first, second))
            == Some(s.(tasks := s.tasks[i := Task(key, if won then Fulfilled else Rejected)],
                       fetched := if won then s.fetched + {key} else s.fetched,
                       failed := !won,
                       count := if s.failed then s.count else s.count + 1))
  {
    hide ListRun, RunFrom;
    var s := ListRun(steps).value;
    NextIsNext(steps, i);
    RetrievalEnds(s, i, usable, first, second);
    RunOn(steps, Retrieval(i, usable, Fit(s, s.tasks[i].key, usable), first, second));
  }

  // ----- a whole enumeration -----

  /** The i-th key of a list is among the first 64 and no key up to it repeats. */
  predicate Deliverable<K(==)>(keys: seq<K>, i: nat)
    requires i < |keys|
  {
    i < 64 && forall j, k | 0 <= j < k <= i :: keys[j] != keys[k]
  }

  function Asking<K>(keys: seq<K>): seq<ListStep<K>> {
    if keys == [] then [OpenEnumerator] else Asking(keys[..|keys| - 1]) + [GetKey(keys[|keys| - 1])]
  }

  /** The SDK asks for all keys at once, and every client answers well. */
  function Fetching<K(==)>(keys: seq<K>, n: nat): seq<ListStep<K>>
    requires n <= |keys|
  {
    if n == 0 then Asking(keys) else Fetching(keys, n - 1) + Retrieval(n - 1, true, Deliverable(keys, n - 1), true, true)
  }

  ghost predicate AfterFetching<K>(keys: seq<K>, n: nat, s: Session<K>)
    requires n <= |keys|
  {
    && s.listing == Enumerating && !s.disposed && s.active == {Enumerator}
    && |s.tasks| == |keys|
    && (forall i | 0 <= i < |keys| ::
          s.tasks[i] == Task(keys[i], if i >= n then Queueing else if Deliverable(keys, i) then Fulfilled else Rejected))
    && (s.failed <==> n > 0 && !Deliverable(keys, n - 1))
    && (!s.failed ==> s.count == n)
    && s.fetched == set i | 0 <= i < n && Deliverable(keys, i) :: keys[i]
  }

  lemma {:induction false} AskingRuns<K>(keys: seq<K>)
    ensures ListRun(Asking(keys)).Some?
    ensures AfterFetching(keys, 0, ListRun(Asking(keys)).value)
  {
    if keys == [] {
      var steps: seq<ListStep<K>> := [OpenEnumerator];
      assert steps[..0] == [];
    } else {
      AskingRuns(keys[..|keys| - 1]);
      OneMore(Asking(keys[..|keys| - 1]), GetKey(keys[|keys| - 1]));
    }
  }

  lemma {:induction false} FetchingRuns<K>(keys: seq<K>, n: nat)
    requires n <= |keys|
    ensures ListRun(Fetching(keys, n)).Some?
    ensures AfterFetching(keys, n, ListRun(Fetching(keys, n)).value)
  {
    if n == 0 {
      AskingRuns(keys);
    } else {
      FetchingRuns(keys, n - 1);
      hide ListRun, AfterFetching;
      var s, i := ListRun(Fetching(keys, n - 1)).value, n - 1;
      FetchingStep(keys, n, s);
      RetrievalOutcome(Fetching(keys, n - 1), i, true, true, true);
    }
  }

  lemma FetchingStep<K>(keys: seq<K>, n: nat, s: Session<K>)
    requires 0 < n <= |keys| && AfterFetching(keys, n - 1, s)
    ensures |s.tasks| == |keys| && s.tasks[n - 1] == Task(keys[n - 1], Queueing) && (n > 1 ==> IsSettled(s.tasks[n - 2]))
    ensures Fit(s, keys[n - 1], true) <==> Deliverable(keys, n - 1)
    ensures AfterFetching(keys, n, Ended(s, n - 1, keys[n - 1], Deliverable(keys, n - 1)))
  {
    var i := n - 1;
    assert s.fetched == set j | 0 <= j < i && Deliverable(keys, j) :: keys[j];
    DeliverableStep(keys, i);
    FetchedStep(keys, n);
    hide Deliverable;
    assert Fit(s, keys[i], true) <==> Deliverable(keys, i) by {
      assert s.failed <==> i > 0 && !Deliverable(keys, i - 1);
    }
    var t := Ended(s, i, keys[i], Deliverable(keys, i));
    TasksStep(keys, n, s, t);
    assert t.fetched == set j | 0 <= j < n && Deliverable(keys, j) :: keys[j];
  }

  lemma TasksStep<K>(keys: seq<K>, n: nat, s: Session<K>, t: Session<K>)
    requires 0 < n <= |keys| && AfterFetching(keys, n - 1, s) && t == Ended(s, n - 1, keys[n - 1], Deliverable(keys, n - 1))
    ensures |t.tasks| == |keys|
    ensures forall i | 0 <= i < |keys| ::
              t.tasks[i] == Task(keys[i], if i >= n then Queueing else if Deliverable(keys, i) then Fulfilled else Rejected)
  {
    hide Deliverable;
  }

  lemma FetchedStep<K>(keys: seq<K>, n: nat)
    requires 0 < n <= |keys|
    ensures (set i | 0 <= i < n && Deliverable(keys, i) :: keys[i])
            == (set i | 0 <= i < n - 1 && Deliverable(keys, i) :: keys[i]) + if Deliverable(keys, n - 1) then {keys[n - 1]} else {}
  {
    hide Deliverable;
  }

  lemma DeliverableStep<K>(keys: seq<K>, i: nat)
    requires i < |keys|
    ensures Deliverable(keys, i) <==>
              (i > 0 ==> Deliverable(keys, i - 1)) && i < 64 && keys[i] !in set j | 0 <= j < i && Deliverable(keys, j) :: keys[j]
  {
  }

  /** The last key is deliverable exactly in a list of at most 64 different keys. */
  lemma LastDeliverable<K>(keys: seq<K>)
    requires keys != []
    ensures Deliverable(keys, |keys| - 1) <==> |keys| <= 64 && forall j, k | 0 <= j < k < |keys| :: keys[j] != keys[k]
    ensures Deliverable(keys, |keys| - 1) ==> (set i | 0 <= i < |keys| && Deliverable(keys, i) :: keys[i]) == set k | k in keys
  {
    if Deliverable(keys, |keys| - 1) {
      assert forall i | 0 <= i < |keys| :: Deliverable(keys, i);
    }
  }

  lemma Closing<K>(keys: seq<K>, s: Session<K>)
    requires AfterFetching(keys, |keys|, s)
    ensures var settled := ListNext(s, ListSettles);
            && settled.Some?
            && ListNext(settled.value, CloseEnumerator)
               == Some(s.(listing := Closed, awaited := |keys|, active := {}))
  {
    hide Deliverable;
    assert {Enumerator} - {Enumerator} == {};
  }

  lemma ClosedMeans<K>(keys: seq<K>, s: Session<K>)
    requires AfterFetching(keys, |keys|, s)
    ensures s.fetched == set i | 0 <= i < |keys| && Deliverable(keys, i) :: keys[i]
    ensures s.failed <==> |keys| > 64 || exists j, k | 0 <= j < k < |keys| :: keys[j] == keys[k]
    ensures !s.failed ==> s.fetched == set k | k in keys
  {
    if keys == [] {
      assert s.fetched == {};
    } else {
      LastDeliverable(keys);
      hide Deliverable;
    }
  }

  lemma TwoMore<K>(steps: seq<ListStep<K>>, a: ListStep<K>, b: ListStep<K>)
    requires ListRun(steps).Some? && ListNext(ListRun(steps).value, a).Some?
    ensures ListRun(steps + [a] + [b]) == ListNext(ListNext(ListRun(steps).value, a).value, b)
  {
    hide ListNext, ListRun;
    OneMore(steps, a);
    OneMore(steps + [a], b);
  }

  /** The whole enumeration closes with nothing open; it fetches the keys of the
      list up to the 64th or the first repetition, and fails exactly when the
      list goes on from there. A list of at most 64 different keys is fetched
      whole. */
  lemma EnumerationDelivers<K>(keys: seq<K>)
    ensures var run := ListRun(Fetching(keys, |keys|) + [ListSettles] + [CloseEnumerator]);
            && run.Some? && run.value.listing == Closed && run.value.active == {}
            && run.value.fetched == (set i | 0 <= i < |keys| && Deliverable(keys, i) :: keys[i])
            && (run.value.failed <==> |keys| > 64 || exists j, k | 0 <= j < k < |keys| :: keys[j] == keys[k])
            && (!run.value.failed ==> run.value.fetched == set k | k in keys)
  {
    hide ListRun, ListNext, Fetching, Deliverable, AfterFetching;
    FetchingRuns(keys, |keys|);
    var s := ListRun(Fetching(keys, |keys|)).value;
    Closing(keys, s);
    TwoMore(Fetching(keys, |keys|), ListSettles, CloseEnumerator);
    ClosedMeans(keys, s);
  }
}
