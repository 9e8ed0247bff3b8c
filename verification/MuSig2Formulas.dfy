/** The formulas of BIP-327, written out: which key is exempt from hashing,
    what a tweak does to the key, and what the nonce coefficient and the
    challenge commit to. */
module MuSig2Formulas {
  import opened Wrappers
  import opened PrimeGroup
  import opened MuSig2

  // ----- coefficients -----

  /** Every key before the first occurrence of `key` is the first key, and `key` is another. */
  predicate IsSecond<P(==)>(pubkeys: seq<P>, key: P) {
    exists j | 0 <= j < |pubkeys| :: pubkeys[j] == key != pubkeys[0] && forall k | 0 <= k < j :: pubkeys[k] == pubkeys[0]
  }

  lemma {:induction false} FirstOtherAt<P>(first: P, pubkeys: seq<P>, j: nat)
    requires j <= |pubkeys| && forall k | 0 <= k < j :: pubkeys[k] == first
    requires j < |pubkeys| ==> pubkeys[j] != first
    ensures FirstOther(first, pubkeys) == if j < |pubkeys| then Some(pubkeys[j]) else None
  {
    if pubkeys != [] && pubkeys[0] == first {
      FirstOtherAt(first, pubkeys[1..], j - 1);
    }
  }

  lemma {:induction false} Leading<P>(first: P, pubkeys: seq<P>) returns (j: nat)
    ensures j <= |pubkeys| && (forall k | 0 <= k < j :: pubkeys[k] == first) && (j < |pubkeys| ==> pubkeys[j] != first)
  {
    j := 0;
    if pubkeys != [] && pubkeys[0] == first {
      var i := Leading(first, pubkeys[1..]);
      j := i + 1;
    }
  }

  /** The key first seen to differ from the first key has coefficient 1 wherever
      it stands; every other key is hashed, and all are when the keys are equal. */
  lemma CoefficientsAre<P, M>(E: Group<P>, H: Hashes<P, M>, pubkeys: seq<P>)
    requires E.n > 2 && KeyAgg(E, H, pubkeys).Ok?
    ensures var c := KeyAgg(E, H, pubkeys).value;
            && c.pubkeys == pubkeys && |c.coefficients| == |pubkeys|
            && forall i | 0 <= i < |pubkeys| ::
                 c.coefficients[i] == if IsSecond(pubkeys, pubkeys[i]) then 1 else H.coefficient(pubkeys, pubkeys[i]) % E.n
  {
    var j := Leading(pubkeys[0], pubkeys);
    FirstOtherAt(pubkeys[0], pubkeys, j);
    if j < |pubkeys| {
      assert IsSecond(pubkeys, pubkeys[j]);
    }
    forall key | IsSecond(pubkeys, key) ensures SecondKey(pubkeys) == Some(key) {
      var i :| 0 <= i < |pubkeys| && pubkeys[i] == key != pubkeys[0] && forall k | 0 <= k < i :: pubkeys[k] == pubkeys[0];
      FirstOtherAt(pubkeys[0], pubkeys, i);
    }
  }

  /** Two different keys: the first is hashed, the second is not. */
  lemma TwoKeys<P(!new), M>(E: Group<P>, H: Hashes<P, M>, p: P, q: P)
    requires Laws(E) && p != q
    ensures var c := KeyAgg(E, H, [p, q]);
            c.Ok? ==> c.value.q == E.add(E.mul(H.coefficient([p, q], p) % E.n, p), q)
                      && c.value.coefficients == [H.coefficient([p, q], p) % E.n, 1]
  {
    var c := KeyAgg(E, H, [p, q]);
    if c.Ok? {
      CoefficientsAre(E, H, [p, q]);
      assert IsSecond([p, q], [p, q][1]) && !IsSecond([p, q], [p, q][0]);
      var W := Weighted(E, H, [p, q]);
      assert W[..1][..0] == [] && W[..1][0] == W[0] && W[..|W| - 1] == W[..1];
      assert Sum(E, W[..1]) == E.add(E.zero, W[0]);
      Comm(E, E.zero, W[0]);
      Zero(E, W[0]);
      One(E, q);
      assert W == [E.mul(c.value.coefficients[0], p), E.mul(c.value.coefficients[1], q)];
    }
  }

  // ----- tweaks -----

  /** A plain tweak adds t * G to the key, an x-only tweak to its even lift; the
      tweak fails exactly when t is not below n or the sum is infinity. */
  lemma TweakAdds<P(!new)>(E: Group<P>, c: Context<P>, t: Tweak)
    requires Laws(E)
    ensures var q := E.add(if t.xonly then (if E.even(c.q) then c.q else E.neg(c.q)) else c.q, E.mul(t.value, E.gen));
            && (ApplyTweak(E, c, t).Ok? <==> t.value < E.n && q != E.zero)
            && (ApplyTweak(E, c, t).Ok? ==> ApplyTweak(E, c, t).value.q == q)
  {
  }

  // ----- what a session commits to -----

  /** No two inputs of the nonce coefficient hash agree modulo n. */
  ghost predicate NonceHashSeparates<P(!new), M(!new)>(E: Group<P>, H: Hashes<P, M>)
    requires E.n > 2
  {
    forall a, b, q, m, a', b', q', m' ::
      H.nonceCoef(a, b, q, m) % E.n == H.nonceCoef(a', b', q', m') % E.n ==> a == a' && b == b' && q == q' && m == m'
  }

  ghost predicate ChallengeSeparates<P(!new), M(!new)>(E: Group<P>, H: Hashes<P, M>)
    requires E.n > 2
  {
    forall r, q, m, r', q', m' ::
      H.challenge(r, q, m) % E.n == H.challenge(r', q', m') % E.n ==> r == r' && q == q' && m == m'
  }

  /** R is R1 + b*R2, or G in place of infinity. Under hashes without collisions, two sessions have one nonce coefficient
      exactly when they agree on both aggregate nonces, the x-coordinate of the
      tweaked key and the message, and one challenge exactly when they agree on
      the x-coordinates of nonce and key and the message. */
  lemma SessionBinds<P(!new), M(!new)>(E: Group<P>, H: Hashes<P, M>, s: Session<P, M>, t: Session<P, M>)
    requires E.n > 2 && NonceHashSeparates(E, H) && ChallengeSeparates(E, H)
    requires SessionValues(E, H, s).Ok? && SessionValues(E, H, t).Ok?
    ensures var v, w := SessionValues(E, H, s).value, SessionValues(E, H, t).value;
            && v.b == H.nonceCoef(s.aggR1, s.aggR2, Lift(E, v.context.q), s.message) % E.n
            && v.r == (if E.add(s.aggR1, E.mul(v.b, s.aggR2)) == E.zero then E.gen else E.add(s.aggR1, E.mul(v.b, s.aggR2)))
            && (v.b == w.b <==> s.aggR1 == t.aggR1 && s.aggR2 == t.aggR2
                                && Lift(E, v.context.q) == Lift(E, w.context.q) && s.message == t.message)
            && (v.e == w.e <==> Lift(E, v.r) == Lift(E, w.r)
                                && Lift(E, v.context.q) == Lift(E, w.context.q) && s.message == t.message)
  {
  }
}
