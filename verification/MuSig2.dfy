/** BIP-327 MuSig2 over an abstract group: key aggregation, tweaking, partial
    signing, partial verification and aggregation (src/musig2.ts and the KeyAgg
    half of src/crypto.ts). Hashes are uninterpreted. A 32-byte x-only key or
    nonce is the even lift of its point. */
module MuSig2 {
  import opened Wrappers
  import opened PrimeGroup

  datatype Error =
    | EmptyKeySet | InvalidPublicKey | ZeroCoefficient | InfiniteAggregate
    | TweakTooLarge | InfiniteTweak | InvalidNonce(signer: nat)
    | NonceOutOfRange | SecretKeyOutOfRange | WrongSigningKey | NotASigner
    | SelfCheckFailed | InvalidPartial(contributor: nat)

  datatype Result<+T> = Ok(value: T) | Err(error: Error)

  /** The tagged hashes: "KeyAgg coefficient" (which also hashes the key list),
      "MuSig/noncecoef" and "BIP0340/challenge". */
  datatype Hashes<!P(==), !M> = Hashes(
    coefficient: (seq<P>, P) -> int,
    nonceCoef: (P, P, P, M) -> int,
    challenge: (P, P, M) -> int)

  datatype Context<P> = Context(q: P, gacc: int, tacc: int, pubkeys: seq<P>, coefficients: seq<int>)

  datatype Tweak = Tweak(value: nat, xonly: bool)

  datatype Session<P, M> = Session(aggR1: P, aggR2: P, pubkeys: seq<P>, tweaks: seq<Tweak>, message: M)

  datatype Values<P> = Values(context: Context<P>, b: int, r: P, e: int)

  datatype Nonce<P> = Nonce(r1: P, r2: P)

  datatype SecNonce<P> = SecNonce(k1: nat, k2: nat, publicKey: P)

  /** A BIP-340 signature: the x-bytes of R and the scalar s. */
  datatype Signature<P> = Signature(rx: P, s: nat)

  // ----- key aggregation -----

  /** Sum of a list of points, as the loops accumulate it. */
  function Sum<P>(E: Group<P>, points: seq<P>): P {
    if points == [] then E.zero
    else E.add(Sum(E, points[..|points| - 1]), points[|points| - 1])
  }

  function FirstOther<P(==)>(first: P, pubkeys: seq<P>): Option<P> {
    if pubkeys == [] then None
    else if pubkeys[0] != first then Some(pubkeys[0])
    else FirstOther(first, pubkeys[1..])
  }

  function SecondKey<P(==)>(pubkeys: seq<P>): Option<P> {
    if pubkeys == [] then None else FirstOther(pubkeys[0], pubkeys)
  }

  /** The coefficient depends on the list and the key only, never on the position. */
  function Coefficient<P, M>(E: Group<P>, H: Hashes<P, M>, pubkeys: seq<P>, key: P): int
    requires E.n > 2
  {
    if SecondKey(pubkeys) == Some(key) then 1 else H.coefficient(pubkeys, key) % E.n
  }

  function Coefficients<P, M>(E: Group<P>, H: Hashes<P, M>, pubkeys: seq<P>): seq<int>
    requires E.n > 2
  {
    seq(|pubkeys|, i requires 0 <= i < |pubkeys| => Coefficient(E, H, pubkeys, pubkeys[i]))
  }

  function Weighted<P, M>(E: Group<P>, H: Hashes<P, M>, pubkeys: seq<P>): seq<P>
    requires E.n > 2
  {
    seq(|pubkeys|, i requires 0 <= i < |pubkeys| =>
      E.mul(Coefficient(E, H, pubkeys, pubkeys[i]), pubkeys[i]))
  }

  predicate SomePrefixVanishes<P>(E: Group<P>, points: seq<P>) {
    exists k | 1 <= k <= |points| :: Sum(E, points[..k]) == E.zero
  }

  /** keyAgg and keyAggContext. Unlike BIP-327, a vanishing sum of a proper
      prefix of the keys is already an error. */
  function KeyAgg<P, M>(E: Group<P>, H: Hashes<P, M>, pubkeys: seq<P>): Result<Context<P>>
    requires E.n > 2
  {
    var W := Weighted(E, H, pubkeys);
    if pubkeys == [] then Err(EmptyKeySet)
    else if E.zero in pubkeys then Err(InvalidPublicKey)
    else if 0 in Coefficients(E, H, pubkeys) then Err(ZeroCoefficient)
    else if E.zero in W || SomePrefixVanishes(E, W) then Err(InfiniteAggregate)
    else Ok(Context(Sum(E, W), 1, 0, pubkeys, Coefficients(E, H, pubkeys)))
  }

  // ----- tweaking -----

  /** n - 1 or 1, by the parity of the aggregate. */
  function Sign01<P>(E: Group<P>, q: P): int { if E.even(q) then 1 else E.n - 1 }

  function ApplyTweak<P>(E: Group<P>, c: Context<P>, t: Tweak): Result<Context<P>>
    requires E.n > 2
  {
    if t.value >= E.n then Err(TweakTooLarge)
    else
      var g := if t.xonly then Sign01(E, c.q) else 1;
      var gq := if g == 1 then c.q else E.neg(c.q);
      var q := E.add(gq, E.mul(t.value, E.gen));
      if q == E.zero then Err(InfiniteTweak)
      else Ok(c.(q := q, gacc := (g * c.gacc) % E.n, tacc := (t.value + g * c.tacc) % E.n))
  }

  function ApplyTweaks<P>(E: Group<P>, c: Context<P>, tweaks: seq<Tweak>): Result<Context<P>>
    requires E.n > 2
  {
    if tweaks == [] then Ok(c)
    else
      var r := ApplyTweaks(E, c, tweaks[..|tweaks| - 1]);
      if r.Err? then r else ApplyTweak(E, r.value, tweaks[|tweaks| - 1])
  }

  // ----- nonces and session -----

  function FirstInvalid<P(==)>(zero: P, halves: seq<P>): Option<nat> {
    if halves == [] then None
    else if FirstInvalid(zero, halves[..|halves| - 1]).Some? then FirstInvalid(zero, halves[..|halves| - 1])
    else if halves[|halves| - 1] == zero then Some(|halves| - 1)
    else None
  }

  function Firsts<P>(nonces: seq<Nonce<P>>): seq<P> { seq(|nonces|, i requires 0 <= i < |nonces| => nonces[i].r1) }

  function Seconds<P>(nonces: seq<Nonce<P>>): seq<P> { seq(|nonces|, i requires 0 <= i < |nonces| => nonces[i].r2) }

  function NonceAgg<P>(E: Group<P>, nonces: seq<Nonce<P>>): Result<Nonce<P>> {
    var bad1, bad2 := FirstInvalid(E.zero, Firsts(nonces)), FirstInvalid(E.zero, Seconds(nonces));
    if bad1.Some? then Err(InvalidNonce(bad1.value))
    else if bad2.Some? then Err(InvalidNonce(bad2.value))
    else Ok(Nonce(Sum(E, Firsts(nonces)), Sum(E, Seconds(nonces))))
  }

  function EffectiveNonce<P, M>(E: Group<P>, session: Session<P, M>, b: int): P {
    E.add(session.aggR1, E.mul(b, session.aggR2))
  }

  function ValuesOf<P, M>(E: Group<P>, H: Hashes<P, M>, session: Session<P, M>, c: Context<P>): Values<P>
    requires E.n > 2
  {
    var b := H.nonceCoef(session.aggR1, session.aggR2, Lift(E, c.q), session.message) % E.n;
    var effective := EffectiveNonce(E, session, b);
    var r := if effective == E.zero then E.gen else effective;
    Values(c, b, r, H.challenge(Lift(E, r), Lift(E, c.q), session.message) % E.n)
  }

  function SessionContext<P, M>(E: Group<P>, H: Hashes<P, M>, session: Session<P, M>): Result<Context<P>>
    requires E.n > 2
  {
    var c := KeyAgg(E, H, session.pubkeys);
    if c.Err? then c else ApplyTweaks(E, c.value, session.tweaks)
  }

  function SessionValues<P, M>(E: Group<P>, H: Hashes<P, M>, session: Session<P, M>): Result<Values<P>>
    requires E.n > 2
  {
    var c := SessionContext(E, H, session);
    if c.Err? then Err(c.error) else Ok(ValuesOf(E, H, session, c.value))
  }

  // ----- partial signatures -----

  function IndexOf<P(==)>(keys: seq<P>, key: P): Option<nat> {
    if keys == [] then None
    else if keys[0] == key then Some(0)
    else match IndexOf(keys[1..], key) case None => None case Some(i) => Some(i + 1)
  }

  /** The coefficient stored at the key's first position. */
  function KeyAggCoeff<P(==)>(c: Context<P>, key: P): Option<int>
    requires |c.coefficients| == |c.pubkeys|
  {
    var i := IndexOf(c.pubkeys, key);
    IndexOfInBounds(c.pubkeys, key);
    if i.Some? then Some(c.coefficients[i.value]) else None
  }

  lemma IndexOfInBounds<P>(keys: seq<P>, key: P)
    ensures match IndexOf(keys, key)
            case None => key !in keys
            case Some(i) => i < |keys| && keys[i] == key
  {
  }

  function Oriented<P>(E: Group<P>, r: P, point: P): P { if E.even(r) then point else E.neg(point) }

  predicate PartialSigVerify<P, M>(E: Group<P>, H: Hashes<P, M>, s: nat, nonce: Nonce<P>, key: P, session: Session<P, M>)
    requires E.n > 2
  {
    var values := SessionValues(E, H, session);
    if values.Err? || s >= E.n || nonce.r1 == E.zero || nonce.r2 == E.zero || key == E.zero then false
    else
      var Values(c, b, r, e) := values.value;
      SessionCoefficients(E, H, session);
      var a := KeyAggCoeff(c, key);
      if a.None? then false
      else
        var re := Oriented(E, r, E.add(nonce.r1, E.mul(b, nonce.r2)));
        var g' := (Sign01(E, c.q) * c.gacc) % E.n;
        E.mul(s, E.gen) == E.add(re, E.mul((e * a.value * g') % E.n, key))
  }

  function Sign<P, M>(E: Group<P>, H: Hashes<P, M>, secnonce: SecNonce<P>, secretKey: nat, session: Session<P, M>): Result<nat>
    requires E.n > 2
  {
    var values := SessionValues(E, H, session);
    if values.Err? then Err(values.error)
    else if !(0 < secnonce.k1 < E.n && 0 < secnonce.k2 < E.n) then Err(NonceOutOfRange)
    else if !(0 < secretKey < E.n) then Err(SecretKeyOutOfRange)
    else if E.mul(secretKey, E.gen) != secnonce.publicKey then Err(WrongSigningKey)
    else
      var Values(c, b, r, e) := values.value;
      SessionCoefficients(E, H, session);
      var a := KeyAggCoeff(c, secnonce.publicKey);
      if a.None? then Err(NotASigner)
      else
        var k1 := if E.even(r) then secnonce.k1 else E.n - secnonce.k1;
        var k2 := if E.even(r) then secnonce.k2 else E.n - secnonce.k2;
        var d := (Sign01(E, c.q) * c.gacc * secretKey) % E.n;
        var s := (k1 + b * k2 + e * a.value * d) % E.n;
        var pubnonce := Nonce(E.mul(secnonce.k1, E.gen), E.mul(secnonce.k2, E.gen));
        if PartialSigVerify(E, H, s, pubnonce, secnonce.publicKey, session) then Ok(s) else Err(SelfCheckFailed)
  }

  function FirstTooLarge(n: int, sigs: seq<nat>): Option<nat> {
    if sigs == [] then None
    else if FirstTooLarge(n, sigs[..|sigs| - 1]).Some? then FirstTooLarge(n, sigs[..|sigs| - 1])
    else if sigs[|sigs| - 1] >= n then Some(|sigs| - 1)
    else None
  }

  function Total(sigs: seq<nat>): int {
    if sigs == [] then 0 else Total(sigs[..|sigs| - 1]) + sigs[|sigs| - 1]
  }

  function PartialSigAgg<P, M>(E: Group<P>, H: Hashes<P, M>, sigs: seq<nat>, session: Session<P, M>): Result<Signature<P>>
    requires E.n > 2
  {
    var values := SessionValues(E, H, session);
    var bad := FirstTooLarge(E.n, sigs);
    if values.Err? then Err(values.error)
    else if bad.Some? then Err(InvalidPartial(bad.value))
    else
      var Values(c, b, r, e) := values.value;
      Ok(Signature(Lift(E, r), (Total(sigs) + e * Sign01(E, c.q) * c.tacc) % E.n))
  }

  /** BIP-340 "Verification" for the x-only key `key` (a lifted point). */
  predicate SchnorrVerify<P, M>(E: Group<P>, H: Hashes<P, M>, key: P, message: M, sig: Signature<P>)
    requires E.n > 2
  {
    var e := H.challenge(sig.rx, key, message) % E.n;
    var R := Sub(E, E.mul(sig.s, E.gen), E.mul(e, key));
    sig.s < E.n && R != E.zero && E.even(R) && R == sig.rx
  }

  // ----- what the context carries -----

  lemma {:induction false} TweaksKeepKeys<P>(E: Group<P>, c: Context<P>, tweaks: seq<Tweak>)
    requires E.n > 2
    ensures var r := ApplyTweaks(E, c, tweaks);
            r.Ok? ==> r.value.pubkeys == c.pubkeys && r.value.coefficients == c.coefficients
  {
    if tweaks != [] {
      TweaksKeepKeys(E, c, tweaks[..|tweaks| - 1]);
    }
  }

  lemma SessionCoefficients<P, M>(E: Group<P>, H: Hashes<P, M>, session: Session<P, M>)
    requires E.n > 2
    ensures var r := SessionContext(E, H, session);
            r.Ok? ==>
              && r.value.pubkeys == session.pubkeys
              && r.value.coefficients == Coefficients(E, H, session.pubkeys)
  {
    var c := KeyAgg(E, H, session.pubkeys);
    if c.Ok? {
      TweaksKeepKeys(E, c.value, session.tweaks);
    }
  }
}
