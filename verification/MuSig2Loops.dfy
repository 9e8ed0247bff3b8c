/** The accumulator loops of src/musig2.ts and src/crypto.ts, each proved to
    compute its specification function. */
module MuSig2Loops {
  import opened Wrappers
  import opened PrimeGroup
  import opened MuSig2
  import opened MuSig2Formulas
  import Proofs = MuSig2Proofs

  /** No prefix of the first k points sums to infinity, and none of them is infinity. */
  ghost predicate Finite<P>(E: Group<P>, points: seq<P>, k: nat)
    requires k <= |points|
  {
    && (forall i | 0 <= i < k :: points[i] != E.zero)
    && (forall i {:trigger points[..i]} | 1 <= i <= k :: Sum(E, points[..i]) != E.zero)
  }

  lemma FiniteStep<P(!new)>(E: Group<P>, points: seq<P>, k: nat)
    requires Laws(E) && k < |points|
    ensures Sum(E, points[..k + 1]) == E.add(Sum(E, points[..k]), points[k])
    ensures k == 0 ==> Sum(E, points[..1]) == points[0]
    ensures Finite(E, points, k + 1)
            <==> Finite(E, points, k) && points[k] != E.zero && Sum(E, points[..k + 1]) != E.zero
  {
    Proofs.SumPrefix(E, points, k);
    Zero(E, points[k]);
  }

  lemma NotFiniteLater<P>(E: Group<P>, points: seq<P>, k: nat)
    requires k <= |points| && !Finite(E, points, k)
    ensures E.zero in points || SomePrefixVanishes(E, points)
  {
    if i :| 0 <= i < k && points[i] == E.zero {
    } else {
      var i :| 1 <= i <= k && Sum(E, points[..i]) == E.zero;
    }
  }

  /** keyAgg: coefficients first, then the running aggregate, which may not
      vanish after any key. */
  method KeyAggregate<P(!new,==), M>(E: Group<P>, H: Hashes<P, M>, pubkeys: seq<P>) returns (r: Result<Context<P>>)
    requires Laws(E)
    ensures r == KeyAgg(E, H, pubkeys)
    ensures r.Ok? ==>
              forall i | 0 <= i < |pubkeys| ::
                r.value.coefficients[i] == if IsSecond(pubkeys, pubkeys[i]) then 1 else H.coefficient(pubkeys, pubkeys[i]) % E.n
  {
    if pubkeys == [] {
      return Err(EmptyKeySet);
    }
    if E.zero in pubkeys {
      return Err(InvalidPublicKey);
    }
    var coefficients := Coefficients(E, H, pubkeys);
    if 0 in coefficients {
      return Err(ZeroCoefficient);
    }
    var aggregate := AggregateWeighted(E, coefficients, pubkeys, Weighted(E, H, pubkeys));
    r := if aggregate.None? then Err(InfiniteAggregate)
         else Ok(Context(aggregate.value, 1, 0, pubkeys, coefficients));
    if r.Ok? {
      CoefficientsAre(E, H, pubkeys);
    }
  }

  method AggregateWeighted<P(!new,==)>(E: Group<P>, coefficients: seq<int>, pubkeys: seq<P>, ghost W: seq<P>)
    returns (r: Option<P>)
    requires Laws(E) && |coefficients| == |pubkeys| == |W|
    requires forall i | 0 <= i < |W| :: W[i] == E.mul(coefficients[i], pubkeys[i])
    ensures r == if E.zero in W || SomePrefixVanishes(E, W) then None else Some(Sum(E, W))
  {
    var aggregate := E.zero;
    for i := 0 to |pubkeys|
      invariant aggregate == Sum(E, W[..i])
      invariant Finite(E, W, i)
    {
      var weighted := if coefficients[i] == 1 then pubkeys[i] else E.mul(coefficients[i], pubkeys[i]);
      One(E, pubkeys[i]);
      FiniteStep(E, W, i);
      aggregate := if i == 0 then weighted else E.add(aggregate, weighted);
      if weighted == E.zero || aggregate == E.zero {
        NotFiniteLater(E, W, i + 1);
        return None;
      }
    }
    assert W[..|pubkeys|] == W;
    r := Some(aggregate);
  }

  /** One half of the nonces; `Err` names the first infinite contribution. */
  method SumHalves<P(!new,==)>(E: Group<P>, halves: seq<P>) returns (r: Result<P>)
    ensures var bad := FirstInvalid(E.zero, halves);
            r == if bad.Some? then Err(InvalidNonce(bad.value)) else Ok(Sum(E, halves))
  {
    var sum := E.zero;
    for i := 0 to |halves|
      invariant sum == Sum(E, halves[..i])
      invariant FirstInvalid(E.zero, halves[..i]) == None
    {
      assert halves[..i + 1][..i] == halves[..i];
      if halves[i] == E.zero {
        FirstInvalidStays(E.zero, halves, i + 1);
        return Err(InvalidNonce(i));
      }
      sum := E.add(sum, halves[i]);
    }
    assert halves[..|halves|] == halves;
    r := Ok(sum);
  }

  method NonceAggregate<P(!new,==)>(E: Group<P>, nonces: seq<Nonce<P>>) returns (r: Result<Nonce<P>>)
    ensures r == NonceAgg(E, nonces)
  {
    var first := SumHalves(E, Firsts(nonces));
    if first.Err? {
      return Err(first.error);
    }
    var second := SumHalves(E, Seconds(nonces));
    if second.Err? {
      return Err(second.error);
    }
    r := Ok(Nonce(first.value, second.value));
  }

  lemma {:induction false} FirstInvalidStays<P>(zero: P, halves: seq<P>, k: nat)
    requires k <= |halves| && FirstInvalid(zero, halves[..k]).Some?
    ensures FirstInvalid(zero, halves) == FirstInvalid(zero, halves[..k])
  {
    if k < |halves| {
      var shorter := halves[..|halves| - 1];
      assert shorter[..k] == halves[..k];
      FirstInvalidStays(zero, shorter, k);
    } else {
      assert halves[..k] == halves;
    }
  }

  method ComputeSession<P(!new,==), M>(E: Group<P>, H: Hashes<P, M>, session: Session<P, M>) returns (r: Result<Values<P>>)
    requires Laws(E)
    ensures r == SessionValues(E, H, session)
  {
    var start := KeyAggregate(E, H, session.pubkeys);
    if start.Err? {
      return Err(start.error);
    }
    var context := start.value;
    for i := 0 to |session.tweaks|
      invariant ApplyTweaks(E, start.value, session.tweaks[..i]) == Ok(context)
    {
      assert session.tweaks[..i + 1][..i] == session.tweaks[..i];
      var next := ApplyTweak(E, context, session.tweaks[i]);
      if next.Err? {
        TweakErrorStays(E, start.value, session.tweaks, i + 1);
        return Err(next.error);
      }
      context := next.value;
    }
    assert session.tweaks[..|session.tweaks|] == session.tweaks;
    r := Ok(ValuesOf(E, H, session, context));
  }

  lemma {:induction false} TweakErrorStays<P>(E: Group<P>, c: Context<P>, tweaks: seq<Tweak>, k: nat)
    requires E.n > 2 && k <= |tweaks| && ApplyTweaks(E, c, tweaks[..k]).Err?
    ensures ApplyTweaks(E, c, tweaks) == ApplyTweaks(E, c, tweaks[..k])
  {
    if k < |tweaks| {
      var shorter := tweaks[..|tweaks| - 1];
      assert shorter[..k] == tweaks[..k];
      TweakErrorStays(E, c, shorter, k);
    } else {
      assert tweaks[..k] == tweaks;
    }
  }

  /** The sum of the partials modulo the order; `Err` names the first out of range. */
  method AddPartials(n: int, sigs: seq<nat>) returns (r: Result<nat>)
    requires n > 2
    ensures var bad := FirstTooLarge(n, sigs);
            r == if bad.Some? then Err(InvalidPartial(bad.value)) else Ok(Total(sigs) % n)
  {
    var s := 0;
    for i := 0 to |sigs|
      invariant s == Total(sigs[..i]) % n
      invariant FirstTooLarge(n, sigs[..i]) == None
    {
      assert sigs[..i + 1][..i] == sigs[..i];
      if sigs[i] >= n {
        TooLargeStays(n, sigs, i + 1);
        return Err(InvalidPartial(i));
      }
      ModAdd(n, Total(sigs[..i]), sigs[i]);
      s := (s + sigs[i]) % n;
    }
    assert sigs[..|sigs|] == sigs;
    r := Ok(s);
  }

  method AggregatePartials<P(!new,==), M>(E: Group<P>, H: Hashes<P, M>, sigs: seq<nat>, session: Session<P, M>)
    returns (r: Result<Signature<P>>)
    requires Laws(E)
    ensures r == PartialSigAgg(E, H, sigs, session)
  {
    hide SessionValues;
    var values := ComputeSession(E, H, session);
    if values.Err? {
      return Err(values.error);
    }
    var s := AddPartials(E.n, sigs);
    if s.Err? {
      return Err(s.error);
    }
    var Values(context, b, point, e) := values.value;
    var shift := e * Sign01(E, context.q) * context.tacc;
    ModAdd(E.n, Total(sigs), shift);
    r := Ok(Signature(Lift(E, point), (s.value + shift) % E.n));
  }

  lemma {:induction false} TooLargeStays(n: int, sigs: seq<nat>, k: nat)
    requires k <= |sigs| && FirstTooLarge(n, sigs[..k]).Some?
    ensures FirstTooLarge(n, sigs) == FirstTooLarge(n, sigs[..k])
  {
    if k < |sigs| {
      var shorter := sigs[..|sigs| - 1];
      assert shorter[..k] == sigs[..k];
      TooLargeStays(n, shorter, k);
    } else {
      assert sigs[..k] == sigs;
    }
  }

  // ----- the aggregate secret -----

  /** Sum of coefficient * secret, in key order. */
  function WeightedSecrets<P(==)>(coefficients: seq<int>, pubkeys: seq<P>, secrets: map<P, nat>): int
    requires |coefficients| == |pubkeys| && forall key | key in pubkeys :: key in secrets
  {
    if pubkeys == [] then 0
    else
      var last := |pubkeys| - 1;
      WeightedSecrets(coefficients[..last], pubkeys[..last], secrets) + coefficients[last] * secrets[pubkeys[last]]
  }

  /** keyAggSecret; `None` stands for a missing key or a zero sum. */
  method KeyAggSecret<P(==)>(n: int, pubkeys: seq<P>, coefficients: seq<int>, hasEvenY: bool, secrets: map<P, nat>)
    returns (r: Option<nat>)
    requires n > 2 && |coefficients| == |pubkeys|
    ensures r.Some? <==>
              && (forall key | key in pubkeys :: key in secrets)
              && WeightedSecrets(coefficients, pubkeys, secrets) % n != 0
    ensures r.Some? ==>
              var sum := WeightedSecrets(coefficients, pubkeys, secrets) % n;
              r.value == if hasEvenY then sum else n - sum
  {
    var sum := 0;
    for i := 0 to |pubkeys|
      invariant forall key | key in pubkeys[..i] :: key in secrets
      invariant sum == WeightedSecrets(coefficients[..i], pubkeys[..i], secrets) % n
    {
      if pubkeys[i] !in secrets {
        return None;
      }
      assert pubkeys[..i + 1][..i] == pubkeys[..i] && coefficients[..i + 1][..i] == coefficients[..i];
      ModAdd(n, WeightedSecrets(coefficients[..i], pubkeys[..i], secrets), coefficients[i] * secrets[pubkeys[i]]);
      sum := (sum + coefficients[i] * secrets[pubkeys[i]]) % n;
    }
    assert pubkeys[..|pubkeys|] == pubkeys && coefficients[..|pubkeys|] == coefficients;
    if sum == 0 {
      return None;
    }
    r := Some(if hasEvenY then sum else n - sum);
  }

  /** Each secret is the discrete log of its key. */
  ghost predicate OpenKeys<P>(E: Group<P>, pubkeys: seq<P>, secrets: map<P, nat>) {
    forall key | key in pubkeys :: key in secrets && E.mul(secrets[key], E.gen) == key
  }

  lemma {:induction false} SecretsSum<P(!new), M>(E: Group<P>, H: Hashes<P, M>, pubkeys: seq<P>, secrets: map<P, nat>, k: nat)
    requires Laws(E) && k <= |pubkeys| && OpenKeys(E, pubkeys, secrets)
    ensures E.mul(WeightedSecrets(Coefficients(E, H, pubkeys)[..k], pubkeys[..k], secrets), E.gen)
            == Sum(E, Weighted(E, H, pubkeys)[..k])
  {
    if k == 0 {
      MulZero(E, E.gen);
    } else {
      var j := k - 1;
      var C, W := Coefficients(E, H, pubkeys), Weighted(E, H, pubkeys);
      SecretsSum(E, H, pubkeys, secrets, j);
      assert C[j] == Coefficient(E, H, pubkeys, pubkeys[j]) && W[j] == E.mul(C[j], pubkeys[j]);
      hide Laws, Coefficient, Coefficients, Weighted;
      assert C[..k][..j] == C[..j] && pubkeys[..k][..j] == pubkeys[..j];
      Proofs.SumPrefix(E, W, j);
      var d := secrets[pubkeys[j]];
      MulSum(E, WeightedSecrets(C[..j], pubkeys[..j], secrets), C[j] * d, E.gen);
      MulMul(E, C[j], d, E.gen);
    }
  }

  lemma WholeSecretsSum<P(!new), M>(E: Group<P>, H: Hashes<P, M>, pubkeys: seq<P>, secrets: map<P, nat>)
    requires Laws(E) && OpenKeys(E, pubkeys, secrets)
    ensures E.mul(WeightedSecrets(Coefficients(E, H, pubkeys), pubkeys, secrets), E.gen) == Sum(E, Weighted(E, H, pubkeys))
  {
    SecretsSum(E, H, pubkeys, secrets, |pubkeys|);
    var C, W := Coefficients(E, H, pubkeys), Weighted(E, H, pubkeys);
    assert C[..|pubkeys|] == C && pubkeys[..|pubkeys|] == pubkeys && W[..|pubkeys|] == W;
  }

  lemma AggregateIsWholeSum<P, M>(E: Group<P>, H: Hashes<P, M>, pubkeys: seq<P>)
    requires E.n > 2 && KeyAgg(E, H, pubkeys).Ok?
    ensures var c := KeyAgg(E, H, pubkeys).value;
            c.coefficients == Coefficients(E, H, pubkeys) && c.q == Sum(E, Weighted(E, H, pubkeys)) != E.zero
  {
    var W := Weighted(E, H, pubkeys);
    assert W[..|W|] == W;
  }

  /** With every key opened the aggregate secret exists and is the discrete log
      of the even lift of the untweaked aggregate. */
  lemma AggregateSecretIsDiscreteLog<P(!new), M>(E: Group<P>, H: Hashes<P, M>, pubkeys: seq<P>, secrets: map<P, nat>)
    requires Laws(E) && KeyAgg(E, H, pubkeys).Ok? && OpenKeys(E, pubkeys, secrets)
    ensures var c := KeyAgg(E, H, pubkeys).value;
            |c.coefficients| == |pubkeys| &&
            var sum := WeightedSecrets(c.coefficients, pubkeys, secrets) % E.n;
            && sum != 0
            && E.mul(if E.even(c.q) then sum else E.n - sum, E.gen) == Lift(E, c.q)
  {
    assert E.n > 2;
    hide Laws, KeyAgg, WeightedSecrets, Weighted, Sum;
    AggregateIsWholeSum(E, H, pubkeys);
    WholeSecretsSum(E, H, pubkeys, secrets);
    SecretOfLift(E, WeightedSecrets(Coefficients(E, H, pubkeys), pubkeys, secrets), KeyAgg(E, H, pubkeys).value.q);
  }

  lemma SecretOfLift<P(!new)>(E: Group<P>, total: int, q: P)
    requires Laws(E) && q != E.zero && E.mul(total, E.gen) == q
    ensures total % E.n != 0
    ensures E.mul(if E.even(q) then total % E.n else E.n - total % E.n, E.gen) == Lift(E, q)
  {
    assert E.n > 2;
    hide Laws;
    Reduce(E, total, E.gen);
    MulZero(E, E.gen);
    MinusModular(E, total % E.n, E.gen);
  }
}
