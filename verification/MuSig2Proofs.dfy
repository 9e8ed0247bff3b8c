/** What MuSig2 promises: the tweak accumulators, completeness of partial
    signing, and validity of the aggregate under BIP-340. */
module MuSig2Proofs {
  import opened Wrappers
  import opened PrimeGroup
  import opened MuSig2

  /** The untweaked aggregate: the sum of a_i * P_i. */
  ghost function KeySum<P, M>(E: Group<P>, H: Hashes<P, M>, pubkeys: seq<P>): P
    requires E.n > 2
  {
    Sum(E, Weighted(E, H, pubkeys))
  }

  /** Q = gacc * (sum of a_i * P_i) + tacc * G, and Q is not infinity. */
  ghost predicate Tracks<P>(E: Group<P>, base: P, c: Context<P>) {
    && c.q != E.zero
    && c.q == E.add(E.mul(c.gacc, base), E.mul(c.tacc, E.gen))
    && (c.gacc == 1 || c.gacc == E.n - 1)
    && 0 <= c.tacc < E.n
  }

  lemma ScaledContext<P(!new)>(E: Group<P>, g: int, base: P, c: Context<P>)
    requires Laws(E) && c.q == E.add(E.mul(c.gacc, base), E.mul(c.tacc, E.gen))
    ensures E.mul(g, c.q) == E.add(E.mul(g * c.gacc, base), E.mul(g * c.tacc, E.gen))
  {
    MulAdd(E, g, E.mul(c.gacc, base), E.mul(c.tacc, E.gen));
    MulMul(E, g, c.gacc, base);
    MulMul(E, g, c.tacc, E.gen);
  }

  lemma SignProduct(n: int, g: int, h: int)
    requires n > 2 && (g == 1 || g == n - 1) && (h == 1 || h == n - 1)
    ensures (g * h) % n == if g == h then 1 else n - 1
  {
    if g == n - 1 && h == n - 1 {
      assert g * h == (n - 2) * n + 1;
      ModOf(n, g * h, n - 2, 1);
    } else {
      ModOf(n, g * h, 0, g * h);
    }
  }

  /** Multiplying by the parity sign is lifting. */
  lemma SignedKey<P(!new)>(E: Group<P>, q: P)
    requires Laws(E)
    ensures E.mul(Sign01(E, q), q) == Lift(E, q)
  {
    One(E, q);
    MinusModular(E, 1, q);
  }

  lemma TweakStep<P(!new)>(E: Group<P>, base: P, c: Context<P>, t: Tweak)
    requires Laws(E) && Tracks(E, base, c)
    ensures var r := ApplyTweak(E, c, t); r.Ok? ==> Tracks(E, base, r.value)
  {
    var r := ApplyTweak(E, c, t);
    if r.Ok? {
      var g := if t.xonly then Sign01(E, c.q) else 1;
      One(E, c.q);
      SignedKey(E, c.q);
      assert r.value.q == E.add(E.mul(g, c.q), E.mul(t.value, E.gen));
      ScaledContext(E, g, base, c);
      var A, B, T := E.mul(g * c.gacc, base), E.mul(g * c.tacc, E.gen), E.mul(t.value, E.gen);
      Assoc(E, A, B, T);
      Comm(E, B, T);
      MulSum(E, t.value, g * c.tacc, E.gen);
      Reduce(E, g * c.gacc, base);
      Reduce(E, t.value + g * c.tacc, E.gen);
      SignProduct(E.n, g, c.gacc);
    }
  }

  /** After any list of plain and x-only tweaks the accumulators describe Q. */
  lemma {:induction false} TweaksTrack<P(!new)>(E: Group<P>, base: P, c: Context<P>, tweaks: seq<Tweak>)
    requires Laws(E) && Tracks(E, base, c)
    ensures var r := ApplyTweaks(E, c, tweaks); r.Ok? ==> Tracks(E, base, r.value)
  {
    if tweaks != [] {
      var before := tweaks[..|tweaks| - 1];
      TweaksTrack(E, base, c, before);
      var r := ApplyTweaks(E, c, before);
      if r.Ok? {
        TweakStep(E, base, r.value, tweaks[|tweaks| - 1]);
      }
    }
  }

  lemma KeyAggTracks<P(!new), M>(E: Group<P>, H: Hashes<P, M>, pubkeys: seq<P>)
    requires Laws(E)
    ensures var r := KeyAgg(E, H, pubkeys);
            r.Ok? ==> Tracks(E, KeySum(E, H, pubkeys), r.value) && r.value.q == KeySum(E, H, pubkeys)
  {
    var W := Weighted(E, H, pubkeys);
    if KeyAgg(E, H, pubkeys).Ok? {
      assert W[..|W|] == W;
      var S := Sum(E, W);
      One(E, S);
      MulZero(E, E.gen);
      Zero(E, S);
    }
  }

  /** The context of every session satisfies Q = gacc * S + tacc * G. */
  lemma SessionTracks<P(!new), M>(E: Group<P>, H: Hashes<P, M>, session: Session<P, M>)
    requires Laws(E)
    ensures var r := SessionContext(E, H, session);
            r.Ok? ==> Tracks(E, KeySum(E, H, session.pubkeys), r.value)
  {
    KeyAggTracks(E, H, session.pubkeys);
    var c := KeyAgg(E, H, session.pubkeys);
    if c.Ok? {
      TweaksTrack(E, KeySum(E, H, session.pubkeys), c.value, session.tweaks);
    }
  }

  // ----- coefficients -----

  /** Equal keys get equal coefficients, so the first position serves every position. */
  lemma CoefficientOfKey<P, M>(E: Group<P>, H: Hashes<P, M>, session: Session<P, M>, key: P)
    requires E.n > 2
    ensures var r := SessionContext(E, H, session);
            r.Ok? && key in session.pubkeys ==>
              && |r.value.coefficients| == |r.value.pubkeys|
              && KeyAggCoeff(r.value, key) == Some(Coefficient(E, H, session.pubkeys, key))
  {
    SessionCoefficients(E, H, session);
    IndexOfInBounds(session.pubkeys, key);
  }

  // ----- partial signatures -----

  lemma OrientedSum<P(!new)>(E: Group<P>, r: P, a: P, b: P)
    requires Laws(E)
    ensures Oriented(E, r, E.add(a, b)) == E.add(Oriented(E, r, a), Oriented(E, r, b))
  {
    NegAdd(E, a, b);
  }

  /** k1 + b*k2 with both nonces flipped when R is odd: the oriented effective nonce. */
  lemma NonceScalar<P(!new)>(E: Group<P>, r: P, b: int, k1: int, k2: int)
    requires Laws(E)
    ensures var j1 := if E.even(r) then k1 else E.n - k1;
            var j2 := if E.even(r) then k2 else E.n - k2;
            E.mul(j1 + b * j2, E.gen)
            == Oriented(E, r, E.add(E.mul(k1, E.gen), E.mul(b, E.mul(k2, E.gen))))
  {
    var j1 := if E.even(r) then k1 else E.n - k1;
    var j2 := if E.even(r) then k2 else E.n - k2;
    MulSum(E, j1, b * j2, E.gen);
    MulMul(E, b, j2, E.gen);
    MinusModular(E, k1, E.gen);
    MinusModular(E, k2, E.gen);
    MulNeg(E, b, E.mul(k2, E.gen));
    NegAdd(E, E.mul(k1, E.gen), E.mul(b, E.mul(k2, E.gen)));
  }

  /** The key term: the signer's e*a*d equals the verifier's e*a*g' on P = d'*G. */
  lemma KeyScalar<P(!new)>(E: Group<P>, ea: int, u: int, secretKey: int)
    requires Laws(E)
    ensures E.mul(ea * ((u * secretKey) % E.n), E.gen)
            == E.mul((ea * (u % E.n)) % E.n, E.mul(secretKey, E.gen))
  {
    var key := E.mul(secretKey, E.gen);
    var d := (u * secretKey) % E.n;
    MulMul(E, ea, d, E.gen);
    Reduce(E, u * secretKey, E.gen);
    MulMul(E, u, secretKey, E.gen);
    Reduce(E, u, key);
    MulMul(E, ea, u % E.n, key);
    Reduce(E, ea * (u % E.n), key);
  }

  lemma NonZeroMultiple<P(!new)>(E: Group<P>, k: int)
    requires Laws(E) && 0 < k < E.n
    ensures E.mul(k, E.gen) != E.zero
  {
    assert AtK(k, E.gen);
    ModOf(E.n, k, 0, k);
  }

  /** The verification equation of one partial signature:
      s*G = (R1 + b*R2, oriented) + e*a*g*gacc * P. */
  ghost predicate PartialEquation<P, M>(E: Group<P>, H: Hashes<P, M>, pubkeys: seq<P>, v: Values<P>, s: int, nonce: Nonce<P>, key: P)
    requires E.n > 2
  {
    E.mul(s, E.gen)
    == E.add(Oriented(E, v.r, E.add(nonce.r1, E.mul(v.b, nonce.r2))),
             E.mul(v.e * (Sign01(E, v.context.q) * v.context.gacc), E.mul(Coefficient(E, H, pubkeys, key), key)))
  }

  lemma KeyTerm<P(!new)>(E: Group<P>, e: int, a: int, u: int, key: P)
    requires Laws(E)
    ensures E.mul((e * a * (u % E.n)) % E.n, key) == E.mul(e * u, E.mul(a, key))
  {
    Reduce(E, e * a * (u % E.n), key);
    MulMul(E, e * a, u % E.n, key);
    Reduce(E, u, key);
    MulMul(E, e * a, u, key);
    assert e * a * u == e * u * a;
    MulMul(E, e * u, a, key);
  }

  lemma PartialVerifyMeans<P(!new), M>(E: Group<P>, H: Hashes<P, M>, s: nat, nonce: Nonce<P>, key: P, session: Session<P, M>)
    requires Laws(E) && SessionValues(E, H, session).Ok? && key in session.pubkeys
    ensures PartialSigVerify(E, H, s, nonce, key, session) <==>
              && s < E.n && nonce.r1 != E.zero && nonce.r2 != E.zero && key != E.zero
              && PartialEquation(E, H, session.pubkeys, SessionValues(E, H, session).value, s, nonce, key)
  {
    var v := SessionValues(E, H, session).value;
    CoefficientOfKey(E, H, session, key);
    KeyTerm(E, v.e, Coefficient(E, H, session.pubkeys, key), Sign01(E, v.context.q) * v.context.gacc, key);
  }

  lemma ReducedSum<P(!new)>(E: Group<P>, j: int, k: int)
    requires Laws(E)
    ensures E.mul((j + k) % E.n, E.gen) == E.add(E.mul(j, E.gen), E.mul(k, E.gen))
  {
    Reduce(E, j + k, E.gen);
    MulSum(E, j, k, E.gen);
  }

  lemma SignerEquation<P(!new), M>(E: Group<P>, H: Hashes<P, M>, pubkeys: seq<P>, v: Values<P>, secnonce: SecNonce<P>, secretKey: int)
    requires Laws(E)
    ensures var key := E.mul(secretKey, E.gen);
            var k1 := if E.even(v.r) then secnonce.k1 else E.n - secnonce.k1;
            var k2 := if E.even(v.r) then secnonce.k2 else E.n - secnonce.k2;
            var d := (Sign01(E, v.context.q) * v.context.gacc * secretKey) % E.n;
            var s := (k1 + v.b * k2 + v.e * Coefficient(E, H, pubkeys, key) * d) % E.n;
            PartialEquation(E, H, pubkeys, v, s, Nonce(E.mul(secnonce.k1, E.gen), E.mul(secnonce.k2, E.gen)), key)
  {
    var a := Coefficient(E, H, pubkeys, E.mul(secretKey, E.gen));
    SignerScalar(E, v.r, v.b, secnonce.k1, secnonce.k2, v.e, a, Sign01(E, v.context.q) * v.context.gacc, secretKey);
  }

  lemma SignerScalar<P(!new)>(E: Group<P>, r: P, b: int, k1: int, k2: int, e: int, a: int, u: int, secretKey: int)
    requires Laws(E)
    ensures var j1 := if E.even(r) then k1 else E.n - k1;
            var j2 := if E.even(r) then k2 else E.n - k2;
            E.mul((j1 + b * j2 + e * a * ((u * secretKey) % E.n)) % E.n, E.gen)
            == E.add(Oriented(E, r, E.add(E.mul(k1, E.gen), E.mul(b, E.mul(k2, E.gen)))),
                     E.mul(e * u, E.mul(a, E.mul(secretKey, E.gen))))
  {
    assert E.n > 2;
    hide Laws, Oriented;
    var j1 := if E.even(r) then k1 else E.n - k1;
    var j2 := if E.even(r) then k2 else E.n - k2;
    ReducedSum(E, j1 + b * j2, e * a * ((u * secretKey) % E.n));
    NonceScalar(E, r, b, k1, k2);
    KeyScalar(E, e * a, u, secretKey);
    KeyTerm(E, e, a, u, E.mul(secretKey, E.gen));
  }

  /** Completeness of signing: with usable inputs `Sign` succeeds, whether or
      not the aggregate nonce is infinity, and its result passes verification
      against the signer's own public nonce. */
  lemma SignVerifies<P(!new), M>(E: Group<P>, H: Hashes<P, M>, secnonce: SecNonce<P>, secretKey: nat, session: Session<P, M>)
    requires Laws(E)
    requires SessionValues(E, H, session).Ok?
    requires 0 < secnonce.k1 < E.n && 0 < secnonce.k2 < E.n && 0 < secretKey < E.n
    requires secnonce.publicKey == E.mul(secretKey, E.gen) && secnonce.publicKey in session.pubkeys
    ensures var s := Sign(E, H, secnonce, secretKey, session);
            && s.Ok?
            && s.value < E.n
            && PartialSigVerify(E, H, s.value, Nonce(E.mul(secnonce.k1, E.gen), E.mul(secnonce.k2, E.gen)),
                                secnonce.publicKey, session)
  {
    hide KeyAgg, ApplyTweaks, PartialEquation, PartialSigVerify;
    var key := secnonce.publicKey;
    var v := SessionValues(E, H, session).value;
    CoefficientOfKey(E, H, session, key);
    NonZeroMultiple(E, secnonce.k1);
    NonZeroMultiple(E, secnonce.k2);
    NonZeroMultiple(E, secretKey);
    SignerEquation(E, H, session.pubkeys, v, secnonce, secretKey);
    var k1 := if E.even(v.r) then secnonce.k1 else E.n - secnonce.k1;
    var k2 := if E.even(v.r) then secnonce.k2 else E.n - secnonce.k2;
    var d := (Sign01(E, v.context.q) * v.context.gacc * secretKey) % E.n;
    var s := (k1 + v.b * k2 + v.e * Coefficient(E, H, session.pubkeys, key) * d) % E.n;
    PartialVerifyMeans(E, H, s, Nonce(E.mul(secnonce.k1, E.gen), E.mul(secnonce.k2, E.gen)), key, session);
  }

  /** Exactly when signing yields a partial; it is then the one this signer
      verifies, so the self-check never refuses what got that far. */
  lemma SignsExactly<P(!new), M>(E: Group<P>, H: Hashes<P, M>, secnonce: SecNonce<P>, secretKey: nat, session: Session<P, M>)
    requires Laws(E)
    ensures Sign(E, H, secnonce, secretKey, session).Ok? <==>
              && SessionValues(E, H, session).Ok?
              && 0 < secnonce.k1 < E.n && 0 < secnonce.k2 < E.n && 0 < secretKey < E.n
              && secnonce.publicKey == E.mul(secretKey, E.gen) && secnonce.publicKey in session.pubkeys
    ensures SessionValues(E, H, session).Ok? ==> Sign(E, H, secnonce, secretKey, session) != Err(SelfCheckFailed)
  {
    hide SessionValues, PartialSigVerify, Coefficients;
    if SessionValues(E, H, session).Ok? {
      var key := secnonce.publicKey;
      SessionKeys(E, H, session);
      IndexOfInBounds(session.pubkeys, key);
      if 0 < secnonce.k1 < E.n && 0 < secnonce.k2 < E.n && 0 < secretKey < E.n && key == E.mul(secretKey, E.gen) && key in session.pubkeys {
        SignVerifies(E, H, secnonce, secretKey, session);
      }
    }
  }

  lemma SessionKeys<P, M>(E: Group<P>, H: Hashes<P, M>, session: Session<P, M>)
    requires E.n > 2 && SessionValues(E, H, session).Ok?
    ensures var c := SessionValues(E, H, session).value.context;
            c.pubkeys == session.pubkeys && |c.coefficients| == |c.pubkeys|
  {
    SessionCoefficients(E, H, session);
  }

  // ----- aggregation -----

  lemma TotalScalar<P(!new)>(E: Group<P>, sigs: seq<nat>)
    requires Laws(E) && sigs != []
    ensures E.mul(Total(sigs), E.gen)
            == E.add(E.mul(Total(sigs[..|sigs| - 1]), E.gen), E.mul(sigs[|sigs| - 1], E.gen))
  {
    MulSum(E, Total(sigs[..|sigs| - 1]), sigs[|sigs| - 1], E.gen);
  }

  lemma SumPrefix<P>(E: Group<P>, points: seq<P>, k: nat)
    requires k < |points|
    ensures Sum(E, points[..k + 1]) == E.add(Sum(E, points[..k]), points[k])
  {
    assert points[..k + 1][..k] == points[..k];
  }

  /** b and the sign distribute over the nonce sums. */
  lemma NonceStep<P(!new)>(E: Group<P>, r: P, b: int, A: P, B: P, r1: P, r2: P)
    requires Laws(E)
    ensures Oriented(E, r, E.add(E.add(A, r1), E.mul(b, E.add(B, r2))))
            == E.add(Oriented(E, r, E.add(A, E.mul(b, B))), Oriented(E, r, E.add(r1, E.mul(b, r2))))
  {
    MulAdd(E, b, B, r2);
    Interchange(E, A, r1, E.mul(b, B), E.mul(b, r2));
    OrientedSum(E, r, E.add(A, E.mul(b, B)), E.add(r1, E.mul(b, r2)));
  }

  /** Summing the first k verification equations. */
  lemma {:induction false} SumOfPartials<P(!new), M>(E: Group<P>, H: Hashes<P, M>, pubkeys: seq<P>, v: Values<P>,
                                                     sigs: seq<nat>, nonces: seq<Nonce<P>>, k: nat)
    requires Laws(E) && k <= |sigs| == |nonces| == |pubkeys|
    requires forall i | 0 <= i < k :: PartialEquation(E, H, pubkeys, v, sigs[i], nonces[i], pubkeys[i])
    ensures var W := Weighted(E, H, pubkeys);
            var eg := v.e * (Sign01(E, v.context.q) * v.context.gacc);
            E.mul(Total(sigs[..k]), E.gen)
            == E.add(Oriented(E, v.r, E.add(Sum(E, Firsts(nonces)[..k]), E.mul(v.b, Sum(E, Seconds(nonces)[..k])))),
                     E.mul(eg, Sum(E, W[..k])))
  {
    var W := Weighted(E, H, pubkeys);
    var eg := v.e * (Sign01(E, v.context.q) * v.context.gacc);
    var R1, R2 := Firsts(nonces), Seconds(nonces);
    if k == 0 {
      MulZero(E, E.gen);
      MulOfZero(E, v.b);
      MulOfZero(E, eg);
      Zero(E, E.zero);
      NegZero(E);
    } else {
      var j := k - 1;
      SumOfPartials(E, H, pubkeys, v, sigs, nonces, j);
      assert sigs[..k][..j] == sigs[..j];
      TotalScalar(E, sigs[..k]);
      SumPrefix(E, R1, j);
      SumPrefix(E, R2, j);
      SumPrefix(E, W, j);
      NonceStep(E, v.r, v.b, Sum(E, R1[..j]), Sum(E, R2[..j]), R1[j], R2[j]);
      MulAdd(E, eg, Sum(E, W[..j]), W[j]);
      Interchange(E, Oriented(E, v.r, E.add(Sum(E, R1[..j]), E.mul(v.b, Sum(E, R2[..j])))),
                  E.mul(eg, Sum(E, W[..j])),
                  Oriented(E, v.r, E.add(R1[j], E.mul(v.b, R2[j]))), E.mul(eg, W[j]));
    }
  }

  /** e*g*gacc*S + e*g*tacc*G is e times the lifted key. */
  lemma KeyPart<P(!new)>(E: Group<P>, base: P, c: Context<P>, e: int)
    requires Laws(E) && Tracks(E, base, c)
    ensures var g := Sign01(E, c.q);
            E.add(E.mul(e * (g * c.gacc), base), E.mul(e * g * c.tacc, E.gen)) == E.mul(e, Lift(E, c.q))
  {
    var g := Sign01(E, c.q);
    SignedKey(E, c.q);
    ScaledContext(E, g, base, c);
    MulAdd(E, e, E.mul(g * c.gacc, base), E.mul(g * c.tacc, E.gen));
    MulMul(E, e, g * c.gacc, base);
    assert e * (g * c.tacc) == e * g * c.tacc;
    MulMul(E, e, g * c.tacc, E.gen);
  }

  /** Every partial signature of a full list passes its own verification. */
  ghost predicate AllVerify<P, M>(E: Group<P>, H: Hashes<P, M>, sigs: seq<nat>, nonces: seq<Nonce<P>>, session: Session<P, M>)
    requires E.n > 2
  {
    && |sigs| == |nonces| == |session.pubkeys|
    && forall i | 0 <= i < |sigs| :: PartialSigVerify(E, H, sigs[i], nonces[i], session.pubkeys[i], session)
  }

  lemma NoneTooLarge(n: int, sigs: seq<nat>)
    requires forall i | 0 <= i < |sigs| :: sigs[i] < n
    ensures FirstTooLarge(n, sigs) == None
  {
  }

  ghost predicate AllEquations<P, M>(E: Group<P>, H: Hashes<P, M>, pubkeys: seq<P>, v: Values<P>, sigs: seq<nat>, nonces: seq<Nonce<P>>)
    requires E.n > 2
  {
    && |sigs| == |nonces| == |pubkeys|
    && forall i | 0 <= i < |sigs| :: sigs[i] < E.n && PartialEquation(E, H, pubkeys, v, sigs[i], nonces[i], pubkeys[i])
  }

  lemma VerifiedEquations<P(!new), M>(E: Group<P>, H: Hashes<P, M>, sigs: seq<nat>, nonces: seq<Nonce<P>>, session: Session<P, M>)
    requires Laws(E) && SessionValues(E, H, session).Ok? && AllVerify(E, H, sigs, nonces, session)
    ensures AllEquations(E, H, session.pubkeys, SessionValues(E, H, session).value, sigs, nonces)
  {
    forall i | 0 <= i < |sigs|
      ensures sigs[i] < E.n
      ensures PartialEquation(E, H, session.pubkeys, SessionValues(E, H, session).value, sigs[i], nonces[i], session.pubkeys[i])
    {
      PartialVerifyMeans(E, H, sigs[i], nonces[i], session.pubkeys[i], session);
    }
  }

  lemma SumOfAllPartials<P(!new), M>(E: Group<P>, H: Hashes<P, M>, pubkeys: seq<P>, v: Values<P>, sigs: seq<nat>, nonces: seq<Nonce<P>>)
    requires Laws(E) && AllEquations(E, H, pubkeys, v, sigs, nonces)
    ensures E.mul(Total(sigs), E.gen)
            == E.add(Oriented(E, v.r, E.add(Sum(E, Firsts(nonces)), E.mul(v.b, Sum(E, Seconds(nonces))))),
                     E.mul(v.e * (Sign01(E, v.context.q) * v.context.gacc), KeySum(E, H, pubkeys)))
  {
    var k := |sigs|;
    SumOfPartials(E, H, pubkeys, v, sigs, nonces, k);
    assert sigs[..k] == sigs && Firsts(nonces)[..k] == Firsts(nonces) && Seconds(nonces)[..k] == Seconds(nonces);
    assert Weighted(E, H, pubkeys)[..k] == Weighted(E, H, pubkeys);
  }

  lemma ShiftScalar<P(!new)>(E: Group<P>, total: int, t: int, X: P, K: P, L: P)
    requires Laws(E) && E.mul(total, E.gen) == E.add(X, K) && E.add(K, E.mul(t, E.gen)) == L
    ensures E.mul((total + t) % E.n, E.gen) == E.add(X, L)
  {
    Reduce(E, total + t, E.gen);
    MulSum(E, total, t, E.gen);
    Assoc(E, X, K, E.mul(t, E.gen));
  }

  /** The scalar of the aggregate: s*G = oriented R' + e*lift(Q), where R' is
      the sum of the effective nonces. */
  lemma AggregateScalar<P(!new), M>(E: Group<P>, H: Hashes<P, M>, pubkeys: seq<P>, v: Values<P>, sigs: seq<nat>, nonces: seq<Nonce<P>>)
    requires Laws(E) && AllEquations(E, H, pubkeys, v, sigs, nonces)
    requires Tracks(E, KeySum(E, H, pubkeys), v.context)
    ensures E.mul((Total(sigs) + v.e * Sign01(E, v.context.q) * v.context.tacc) % E.n, E.gen)
            == E.add(Oriented(E, v.r, E.add(Sum(E, Firsts(nonces)), E.mul(v.b, Sum(E, Seconds(nonces))))),
                     E.mul(v.e, Lift(E, v.context.q)))
  {
    hide AllEquations, Sum, Total;
    var g := Sign01(E, v.context.q);
    SumOfAllPartials(E, H, pubkeys, v, sigs, nonces);
    KeyPart(E, KeySum(E, H, pubkeys), v.context, v.e);
    ShiftScalar(E, Total(sigs), v.e * g * v.context.tacc,
                Oriented(E, v.r, E.add(Sum(E, Firsts(nonces)), E.mul(v.b, Sum(E, Seconds(nonces))))),
                E.mul(v.e * (g * v.context.gacc), KeySum(E, H, pubkeys)),
                E.mul(v.e, Lift(E, v.context.q)));
  }

  /** What is left of s*G once e*lift(Q) is subtracted decides BIP-340. */
  lemma OrientedNonce<P(!new)>(E: Group<P>, effective: P)
    requires Laws(E)
    ensures var r := if effective == E.zero then E.gen else effective;
            var X := Oriented(E, r, effective);
            (X != E.zero && E.even(X) && X == Lift(E, r)) <==> effective != E.zero
  {
    if effective == E.zero {
      NegZero(E);
    } else {
      LiftIsEven(E, effective);
    }
  }

  /** Any full list of partials that each pass verification aggregates, and the
      aggregate is a BIP-340 signature under the tweaked key exactly when
      R1 + b*R2 is not infinity. */
  lemma AggregateValid<P(!new), M>(E: Group<P>, H: Hashes<P, M>, sigs: seq<nat>, nonces: seq<Nonce<P>>, session: Session<P, M>)
    requires Laws(E) && SessionValues(E, H, session).Ok?
    requires AllVerify(E, H, sigs, nonces, session)
    requires NonceAgg(E, nonces) == Ok(Nonce(session.aggR1, session.aggR2))
    ensures var v := SessionValues(E, H, session).value;
            var sig := PartialSigAgg(E, H, sigs, session);
            && sig.Ok?
            && (SchnorrVerify(E, H, Lift(E, v.context.q), session.message, sig.value)
                <==> EffectiveNonce(E, session, v.b) != E.zero)
  {
    var v := SessionValues(E, H, session).value;
    VerifiedEquations(E, H, sigs, nonces, session);
    NoneTooLarge(E.n, sigs);
    SessionTracks(E, H, session);
    SessionShape(E, H, sigs, session, v);
    NonceAggSums(E, nonces);
    AggregateFromEquations(E, H, sigs, nonces, session, v);
  }

  /** BIP-340 verification of (x(R), s) when s*G = X + e*key. */
  lemma SchnorrFromScalar<P(!new), M>(E: Group<P>, H: Hashes<P, M>, key: P, message: M, rx: P, s: nat, e: int, X: P)
    requires Laws(E) && s < E.n
    requires e == H.challenge(rx, key, message) % E.n
    requires E.mul(s, E.gen) == E.add(X, E.mul(e, key))
    ensures SchnorrVerify(E, H, key, message, Signature(rx, s)) <==> (X != E.zero && E.even(X) && X == rx)
  {
    AddSub(E, X, E.mul(e, key));
  }

  lemma NonceAggSums<P>(E: Group<P>, nonces: seq<Nonce<P>>)
    ensures var r := NonceAgg(E, nonces);
            r.Ok? ==> r.value == Nonce(Sum(E, Firsts(nonces)), Sum(E, Seconds(nonces)))
  {
  }

  /** The nonce and challenge of a session, and the aggregate it produces. */
  lemma SessionShape<P, M>(E: Group<P>, H: Hashes<P, M>, sigs: seq<nat>, session: Session<P, M>, v: Values<P>)
    requires E.n > 2 && SessionValues(E, H, session) == Ok(v) && FirstTooLarge(E.n, sigs) == None
    ensures v == ValuesOf(E, H, session, v.context)
    ensures PartialSigAgg(E, H, sigs, session)
            == Ok(Signature(Lift(E, v.r), (Total(sigs) + v.e * Sign01(E, v.context.q) * v.context.tacc) % E.n))
  {
  }

  lemma AggregateFromEquations<P(!new), M>(E: Group<P>, H: Hashes<P, M>, sigs: seq<nat>, nonces: seq<Nonce<P>>,
                                           session: Session<P, M>, v: Values<P>)
    requires Laws(E) && v == ValuesOf(E, H, session, v.context)
    requires AllEquations(E, H, session.pubkeys, v, sigs, nonces)
    requires Tracks(E, KeySum(E, H, session.pubkeys), v.context)
    requires session.aggR1 == Sum(E, Firsts(nonces)) && session.aggR2 == Sum(E, Seconds(nonces))
    ensures var s := (Total(sigs) + v.e * Sign01(E, v.context.q) * v.context.tacc) % E.n;
            SchnorrVerify(E, H, Lift(E, v.context.q), session.message, Signature(Lift(E, v.r), s))
            <==> EffectiveNonce(E, session, v.b) != E.zero
  {
    AggregateScalar(E, H, session.pubkeys, v, sigs, nonces);
    var effective := EffectiveNonce(E, session, v.b);
    var s := (Total(sigs) + v.e * Sign01(E, v.context.q) * v.context.tacc) % E.n;
    SchnorrFromScalar(E, H, Lift(E, v.context.q), session.message, Lift(E, v.r), s, v.e, Oriented(E, v.r, effective));
    OrientedNonce(E, effective);
  }
}
