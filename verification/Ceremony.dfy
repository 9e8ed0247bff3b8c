/** The cooperative exit: one MuSig2 session with the single x-only TapTweak,
    and the Taproot output key it must sign for (src/ceremony.ts). The tweak
    hash of (aggregate, merkle root) is a parameter. */
module Ceremony {
  import opened Wrappers
  import opened PrimeGroup
  import opened MuSig2
  import Loops = MuSig2Loops
  import Proofs = MuSig2Proofs

  datatype CeremonyError = SessionFailed(cause: Error) | PartialFailed(signer: nat) | SignatureInvalid

  datatype Outcome<P> = Signed(signature: Signature<P>) | Failed(reason: CeremonyError)

  /** xOnlyPointAddTweak on the x-only aggregate, then its x-bytes. */
  function XonlyOutputKey<P>(E: Group<P>, aggregateX: P, tweak: nat): Option<P> {
    var point := E.add(aggregateX, E.mul(tweak, E.gen));
    if tweak >= E.n || point == E.zero then None else Some(Lift(E, point))
  }

  function SessionFor<P, M>(E: Group<P>, pubkeys: seq<P>, nonces: seq<Nonce<P>>, tweak: nat, message: M): Result<Session<P, M>> {
    var agg := NonceAgg(E, nonces);
    if agg.Err? then Err(agg.error)
    else Ok(Session(agg.value.r1, agg.value.r2, pubkeys, [Tweak(tweak, true)], message))
  }

  /** The single x-only tweak succeeds exactly when the output key exists, and
      reaches that key. */
  lemma SessionReachesOutputKey<P(!new), M>(E: Group<P>, H: Hashes<P, M>, session: Session<P, M>, tweak: nat)
    requires Laws(E) && session.tweaks == [Tweak(tweak, true)]
    requires KeyAgg(E, H, session.pubkeys).Ok?
    ensures var c := SessionContext(E, H, session);
            var output := XonlyOutputKey(E, Lift(E, KeyAgg(E, H, session.pubkeys).value.q), tweak);
            && (c.Ok? <==> output.Some?)
            && (c.Ok? ==> Lift(E, c.value.q) == output.value)
  {
    var start := KeyAgg(E, H, session.pubkeys).value;
    assert session.tweaks[..0] == [];
    assert ApplyTweaks(E, start, []) == Ok(start);
    assert SessionContext(E, H, session) == ApplyTweak(E, start, Tweak(tweak, true));
  }

  /** ceremonyAggregate: check every partial, aggregate, check the result against
      the output key. It signs exactly when the session forms, every partial
      passes and the effective nonce is finite; the final BIP-340 check can
      reject for no other reason. */
  method CeremonyAggregate<P(!new,==), M>(E: Group<P>, H: Hashes<P, M>, pubkeys: seq<P>, nonces: seq<Nonce<P>>,
                                          partials: seq<nat>, tweak: nat, message: M) returns (r: Outcome<P>)
    requires Laws(E) && |pubkeys| == |nonces| == |partials|
    ensures var session := SessionFor(E, pubkeys, nonces, tweak, message);
            r.Signed? <==>
              && session.Ok?
              && SessionValues(E, H, session.value).Ok?
              && Proofs.AllVerify(E, H, partials, nonces, session.value)
              && EffectiveNonce(E, session.value, SessionValues(E, H, session.value).value.b) != E.zero
    ensures r.Signed? ==>
              var output := XonlyOutputKey(E, Lift(E, KeyAgg(E, H, pubkeys).value.q), tweak);
              output.Some? && SchnorrVerify(E, H, output.value, message, r.signature)
  {
    hide PartialSigVerify, KeyAgg, ApplyTweaks, SchnorrVerify, PartialSigAgg, SessionValues;
    var formed := SessionFor(E, pubkeys, nonces, tweak, message);
    if formed.Err? {
      return Failed(SessionFailed(formed.error));
    }
    var session := formed.value;
    for i := 0 to |pubkeys|
      invariant forall k | 0 <= k < i :: PartialSigVerify(E, H, partials[k], nonces[k], pubkeys[k], session)
    {
      if !PartialSigVerify(E, H, partials[i], nonces[i], pubkeys[i], session) {
        return Failed(PartialFailed(i));
      }
    }
    assert Proofs.AllVerify(E, H, partials, nonces, session);
    var signature := Loops.AggregatePartials(E, H, partials, session);
    if signature.Err? {
      SessionErrorOrAggregate(E, H, partials, nonces, session);
      return Failed(SessionFailed(signature.error));
    }
    AggregateCheck(E, H, partials, nonces, session, tweak);
    var aggregate := Loops.KeyAggregate(E, H, pubkeys);
    var output := XonlyOutputKey(E, Lift(E, aggregate.value.q), tweak);
    if !SchnorrVerify(E, H, output.value, message, signature.value) {
      return Failed(SignatureInvalid);
    }
    r := Signed(signature.value);
  }

  lemma SessionErrorOrAggregate<P(!new), M>(E: Group<P>, H: Hashes<P, M>, partials: seq<nat>, nonces: seq<Nonce<P>>, session: Session<P, M>)
    requires Laws(E) && Proofs.AllVerify(E, H, partials, nonces, session)
    requires NonceAgg(E, nonces) == Ok(Nonce(session.aggR1, session.aggR2))
    requires PartialSigAgg(E, H, partials, session).Err?
    ensures SessionValues(E, H, session).Err?
  {
    if SessionValues(E, H, session).Ok? {
      Proofs.AggregateValid(E, H, partials, nonces, session);
    }
  }

  lemma AggregateCheck<P(!new), M>(E: Group<P>, H: Hashes<P, M>, partials: seq<nat>, nonces: seq<Nonce<P>>,
                                   session: Session<P, M>, tweak: nat)
    requires Laws(E) && session.tweaks == [Tweak(tweak, true)]
    requires Proofs.AllVerify(E, H, partials, nonces, session)
    requires NonceAgg(E, nonces) == Ok(Nonce(session.aggR1, session.aggR2))
    requires PartialSigAgg(E, H, partials, session).Ok?
    ensures SessionValues(E, H, session).Ok? && KeyAgg(E, H, session.pubkeys).Ok?
    ensures var output := XonlyOutputKey(E, Lift(E, KeyAgg(E, H, session.pubkeys).value.q), tweak);
            && output.Some?
            && (SchnorrVerify(E, H, output.value, session.message, PartialSigAgg(E, H, partials, session).value)
                <==> EffectiveNonce(E, session, SessionValues(E, H, session).value.b) != E.zero)
  {
    Proofs.AggregateValid(E, H, partials, nonces, session);
    SessionReachesOutputKey(E, H, session, tweak);
  }

  /** One signer's secrets: a nonce pair and the discrete log of the key. */
  ghost predicate Honest<P>(E: Group<P>, secnonce: SecNonce<P>, secretKey: nat, nonce: Nonce<P>, key: P) {
    && 0 < secnonce.k1 < E.n && 0 < secnonce.k2 < E.n && 0 < secretKey < E.n
    && secnonce.publicKey == key == E.mul(secretKey, E.gen)
    && nonce == Nonce(E.mul(secnonce.k1, E.gen), E.mul(secnonce.k2, E.gen))
  }

  /** When every signer is honest and the session forms, every call of `Sign`
      succeeds and all the partials together pass verification, so only an
      infinite effective nonce can stop the ceremony. */
  lemma HonestSignersAllVerify<P(!new), M>(E: Group<P>, H: Hashes<P, M>, session: Session<P, M>,
                                           secnonces: seq<SecNonce<P>>, secretKeys: seq<nat>, nonces: seq<Nonce<P>>)
    returns (partials: seq<nat>)
    requires Laws(E) && SessionValues(E, H, session).Ok?
    requires |secnonces| == |secretKeys| == |nonces| == |session.pubkeys|
    requires forall i | 0 <= i < |secnonces| :: Honest(E, secnonces[i], secretKeys[i], nonces[i], session.pubkeys[i])
    ensures |partials| == |secnonces|
    ensures forall i | 0 <= i < |partials| :: Sign(E, H, secnonces[i], secretKeys[i], session) == Ok(partials[i])
    ensures Proofs.AllVerify(E, H, partials, nonces, session)
  {
    assert E.n > 2;
    hide Sign, PartialSigVerify, SessionValues, Laws, Honest;
    partials := HonestPartials(E, H, session, secnonces, secretKeys, nonces, |secnonces|);
  }

  /** The signer's call succeeds with `s`, and `s` passes verification. */
  ghost predicate Signs<P, M>(E: Group<P>, H: Hashes<P, M>, session: Session<P, M>, secnonce: SecNonce<P>, secretKey: nat,
                              nonce: Nonce<P>, key: P, s: nat)
    requires E.n > 2
  {
    Sign(E, H, secnonce, secretKey, session) == Ok(s) && PartialSigVerify(E, H, s, nonce, key, session)
  }

  lemma {:induction false} HonestPartials<P(!new), M>(E: Group<P>, H: Hashes<P, M>, session: Session<P, M>,
                                                      secnonces: seq<SecNonce<P>>, secretKeys: seq<nat>, nonces: seq<Nonce<P>>, k: nat)
    returns (partials: seq<nat>)
    requires E.n > 2 && Laws(E) && SessionValues(E, H, session).Ok?
    requires k <= |secnonces| == |secretKeys| == |nonces| == |session.pubkeys|
    requires forall i | 0 <= i < |secnonces| :: Honest(E, secnonces[i], secretKeys[i], nonces[i], session.pubkeys[i])
    ensures |partials| == k
    ensures forall i | 0 <= i < k :: Signs(E, H, session, secnonces[i], secretKeys[i], nonces[i], session.pubkeys[i], partials[i])
  {
    hide Signs, SessionValues, Laws, Honest;
    if k == 0 {
      partials := [];
    } else {
      var before := HonestPartials(E, H, session, secnonces, secretKeys, nonces, k - 1);
      var s := HonestSignerVerifies(E, H, session, secnonces[k - 1], secretKeys[k - 1], nonces[k - 1], session.pubkeys[k - 1]);
      partials := before + [s];
    }
  }

  lemma HonestSignerVerifies<P(!new), M>(E: Group<P>, H: Hashes<P, M>, session: Session<P, M>, secnonce: SecNonce<P>,
                                         secretKey: nat, nonce: Nonce<P>, key: P) returns (s: nat)
    requires Laws(E) && SessionValues(E, H, session).Ok? && key in session.pubkeys
    requires Honest(E, secnonce, secretKey, nonce, key)
    ensures E.n > 2 && Signs(E, H, session, secnonce, secretKey, nonce, key, s)
  {
    assert E.n > 2;
    hide PartialSigVerify, SessionValues, Sign, Laws;
    Proofs.SignVerifies(E, H, secnonce, secretKey, session);
    s := Sign(E, H, secnonce, secretKey, session).value;
  }

  /** The local demo signer adds the tweak to the aggregate secret. That secret
      exists exactly when the output key does, and is its discrete log up to
      the parity that BIP-340 signing normalizes. */
  lemma LocalSecretMatchesOutputKey<P(!new), M>(E: Group<P>, H: Hashes<P, M>, pubkeys: seq<P>, secrets: map<P, nat>, tweak: nat)
    requires Laws(E) && tweak < E.n && KeyAgg(E, H, pubkeys).Ok? && Loops.OpenKeys(E, pubkeys, secrets)
    ensures var c := KeyAgg(E, H, pubkeys).value;
            |c.coefficients| == |pubkeys| &&
            var sum := Loops.WeightedSecrets(c.coefficients, pubkeys, secrets) % E.n;
            var internal := if E.even(c.q) then sum else E.n - sum;
            var output := XonlyOutputKey(E, Lift(E, c.q), tweak);
            && ((internal + tweak) % E.n != 0 <==> output.Some?)
            && (output.Some? ==> Lift(E, E.mul((internal + tweak) % E.n, E.gen)) == output.value)
  {
    hide KeyAgg, Loops.WeightedSecrets;
    Loops.AggregateSecretIsDiscreteLog(E, H, pubkeys, secrets);
    var c := KeyAgg(E, H, pubkeys).value;
    var sum := Loops.WeightedSecrets(c.coefficients, pubkeys, secrets) % E.n;
    var internal := if E.even(c.q) then sum else E.n - sum;
    var x := (internal + tweak) % E.n;
    Reduce(E, internal + tweak, E.gen);
    MulSum(E, internal, tweak, E.gen);
    MulZero(E, E.gen);
    if x != 0 {
      Proofs.NonZeroMultiple(E, x);
    }
  }
}
