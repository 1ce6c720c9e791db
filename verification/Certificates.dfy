/** Key sets written from X.509 certificates (modules/oauth_provider/x509_google/main.py), and what
    verification against them means for the certificates. */
module Certificates {
  import opened Positional
  import opened Base64Url
  import opened KeyEncoding
  import opened KeyLimbs
  import opened Provider

  datatype Cert = Rsa(n: nat, e: nat) | OtherKey

  /** The key written for a certificate; certificates that are not RSA give none, which the key-set
      model rejects. */
  function ExtractJwk(c: Cert): Option<Jwk> {
    match c
    case Rsa(n, e) => Some(Jwk(EncodeUint(n), EncodeUint(e)))
    case OtherKey => None
  }

  function KeysOf(certs: seq<Cert>): (r: Refresh)
    ensures r.Fetched? ==> |r.keys| == |certs|
  {
    if certs == [] then Fetched([])
    else match (ExtractJwk(certs[0]), KeysOf(certs[1..]))
         case (Some(key), Fetched(keys)) => Fetched([key] + keys)
         case _ => FetchFailed
  }

  ghost predicate AllRsa(check: KeyCheck, certs: seq<Cert>) {
    forall c :: c in certs ==> c.Rsa? && check(c.e, c.n)
  }

  ghost predicate Accepted(check: KeyCheck, c: Cert) {
    c.Rsa? && check(c.e, c.n)
  }

  /** A batch with a certificate that is not RSA gives no key set; otherwise each key reads back its
      modulus or is refused. */
  lemma {:induction false} CertsRead(check: KeyCheck, certs: seq<Cert>)
    ensures KeysOf(certs).Fetched? <==> forall i :: 0 <= i < |certs| ==> certs[i].Rsa?
    ensures KeysOf(certs).Fetched? ==>
              forall i :: 0 <= i < |certs| ==>
                KeyModulus(check, KeysOf(certs).keys[i])
                == if Accepted(check, certs[i]) then Some(certs[i].n) else None
  {
    hide EncodeUint, DecodeUint;
    if certs != [] {
      CertsRead(check, certs[1..]);
      assert forall i :: 0 < i < |certs| ==> certs[i] == certs[1..][i - 1];
      if certs[0].Rsa? {
        UintRoundTrip(certs[0].n);
        UintRoundTrip(certs[0].e);
      }
    }
  }

  /** Every key written from a usable certificate reads back as the certificate's modulus. */
  lemma CertsReadBack(check: KeyCheck, certs: seq<Cert>)
    requires AllRsa(check, certs)
    ensures KeysOf(certs).Fetched?
    ensures forall i :: 0 <= i < |certs| ==> KeyModulus(check, KeysOf(certs).keys[i]) == Some(certs[i].n)
  {
    hide KeyModulus, KeysOf;
    forall i | 0 <= i < |certs|
      ensures Accepted(check, certs[i])
    {
      assert certs[i] in certs;
    }
    CertsRead(check, certs);
  }

  ghost predicate CertifiedModulus(certs: seq<Cert>, m: nat, modulus: nat)
    requires modulus >= 1
  {
    exists c :: c in certs && c.Rsa? && c.n % modulus == m % modulus
  }

  /** What the limbs tell numbers apart by. */
  function LimbModulus(n: nat, k: nat): (modulus: nat)
    ensures modulus >= 1
  {
    Pow(2, n * k)
  }

  function Submitted(m: nat, n: nat, k: nat): Json {
    Strings(Limbs(m, n, k))
  }

  lemma MatchesAgreeing(check: KeyCheck, key: Jwk, own: nat, m: nat, n: nat, k: nat)
    requires KeyModulus(check, key) == Some(own)
    ensures Matches(check, key, Submitted(m, n, k), n, k)
            <==> own % LimbModulus(n, k) == m % LimbModulus(n, k)
  {
    hide KeyModulus, Limbs, Pow;
    LimbsIdentify(m, own, n, k);
  }

  /** Submitting the limbs of `m` to a key set read from certificates answers whether some certificate's
      modulus agrees with `m` modulo 2^(n*k). */
  lemma CertifiedLimbs(check: KeyCheck, certs: seq<Cert>, keys: seq<Jwk>, m: nat, n: nat, k: nat)
    requires AllRsa(check, certs) && KeysOf(certs) == Fetched(keys)
    ensures Check(check, Some(keys), Modulus(Submitted(m, n, k)), n, k)
            == Answer(CertifiedModulus(certs, m, LimbModulus(n, k)))
  {
    hide KeyModulus, LimbModulus, Submitted, KeysOf, Matches, Scan;
    CertsReadBack(check, certs);
    var value := Submitted(m, n, k);
    ScanFinds(check, keys, value, n, k);
    forall i | 0 <= i < |keys|
      ensures Matches(check, keys[i], value, n, k)
              <==> certs[i].Rsa? && certs[i].n % LimbModulus(n, k) == m % LimbModulus(n, k)
    {
      assert certs[i] in certs;
      MatchesAgreeing(check, keys[i], certs[i].n, m, n, k);
    }
    if ListedModulus(check, keys, value, n, k) {
      var i :| 0 <= i < |keys| && Matches(check, keys[i], value, n, k);
      assert certs[i] in certs;
    }
    if CertifiedModulus(certs, m, LimbModulus(n, k)) {
      var i :| 0 <= i < |certs| && certs[i].Rsa? && certs[i].n % LimbModulus(n, k) == m % LimbModulus(n, k);
      assert keys[i] in keys;
    }
  }

  ghost predicate HasModulus(certs: seq<Cert>, m: nat) {
    exists c :: c in certs && c.Rsa? && c.n == m
  }

  ghost predicate ModuliBelow(certs: seq<Cert>, bound: nat) {
    forall c :: c in certs && c.Rsa? ==> c.n < bound
  }

  lemma SmallModuli(certs: seq<Cert>, m: nat, bound: nat)
    requires m < bound && ModuliBelow(certs, bound)
    ensures CertifiedModulus(certs, m, bound) <==> HasModulus(certs, m)
  {
    DivModUnique(m, bound, 0, m);
    forall c | c in certs && c.Rsa?
      ensures c.n % bound == c.n
    {
      DivModUnique(c.n, bound, 0, c.n);
    }
  }

  /** A certificate that agrees with m, and none up to it that is refused. */
  ghost predicate CertifiedFirst(check: KeyCheck, certs: seq<Cert>, m: nat, modulus: nat)
    requires modulus >= 1
  {
    exists i :: 0 <= i < |certs| && CertifiedAt(check, certs, i, m, modulus)
  }

  ghost predicate CertifiedAt(check: KeyCheck, certs: seq<Cert>, i: nat, m: nat, modulus: nat)
    requires modulus >= 1 && i < |certs|
  {
    (forall j :: 0 <= j <= i ==> Accepted(check, certs[j])) && certs[i].Rsa? && certs[i].n % modulus == m % modulus
  }

  lemma FirstCertified(check: KeyCheck, certs: seq<Cert>, m: nat, n: nat, k: nat)
    requires KeysOf(certs).Fetched?
    ensures FirstMatches(check, KeysOf(certs).keys, Submitted(m, n, k), n, k)
            <==> CertifiedFirst(check, certs, m, LimbModulus(n, k))
    ensures AllDecode(check, KeysOf(certs).keys) <==> AllRsa(check, certs)
  {
    hide KeyModulus, LimbModulus, Submitted, KeysOf, Matches;
    CertsRead(check, certs);
    var keys, value, modulus := KeysOf(certs).keys, Submitted(m, n, k), LimbModulus(n, k);
    forall i | 0 <= i < |keys|
      ensures MatchesAt(check, keys, i, value, n, k) <==> CertifiedAt(check, certs, i, m, modulus)
    {
      MatchesWhere(check, keys[i], certs[i], m, n, k);
    }
    assert FirstMatches(check, keys, value, n, k) <==> CertifiedFirst(check, certs, m, modulus);
    assert forall c :: c in certs ==> exists i :: 0 <= i < |certs| && certs[i] == c;
    assert forall key :: key in keys ==> exists i :: 0 <= i < |keys| && keys[i] == key;
    if AllDecode(check, keys) {
      forall i | 0 <= i < |certs|
        ensures Accepted(check, certs[i])
      {
        assert keys[i] in keys;
      }
    }
    if AllRsa(check, certs) {
      forall i | 0 <= i < |keys|
        ensures KeyModulus(check, keys[i]).Some?
      {
        assert certs[i] in certs;
      }
    }
  }

  lemma MatchesWhere(check: KeyCheck, key: Jwk, c: Cert, m: nat, n: nat, k: nat)
    requires KeyModulus(check, key) == if Accepted(check, c) then Some(c.n) else None
    ensures Matches(check, key, Submitted(m, n, k), n, k)
            <==> Accepted(check, c) && c.n % LimbModulus(n, k) == m % LimbModulus(n, k)
  {
    hide KeyModulus, Limbs, Pow;
    if Accepted(check, c) {
      MatchesAgreeing(check, key, c.n, m, n, k);
    }
  }

  /** End to end, for any two batches of certificates: with the keys of one cached and the other fetched
      on refresh, the limbs of `m` are accepted exactly when a cached certificate agrees with `m` modulo
      2^(n*k) and none up to it is refused, or when no cached certificate is refused or agrees and the
      fetched batch is all RSA and has such a certificate. */
  lemma VerifyCertifiedIff(
    check: KeyCheck, cached: seq<Cert>, cachedKeys: seq<Jwk>, fetched: seq<Cert>, m: nat, n: nat, k: nat)
    requires KeysOf(cached) == Fetched(cachedKeys)
    ensures VerifyVerdict(check, Some(cachedKeys), Modulus(Submitted(m, n, k)), KeysOf(fetched), n, k)
            == Answer(true)
            <==> || CertifiedFirst(check, cached, m, LimbModulus(n, k))
                 || (&& AllRsa(check, cached) && !CertifiedModulus(cached, m, LimbModulus(n, k))
                     && (forall i :: 0 <= i < |fetched| ==> fetched[i].Rsa?)
                     && CertifiedFirst(check, fetched, m, LimbModulus(n, k)))
  {
    hide Submitted, LimbModulus, KeysOf, Check, AllRsa, CertifiedModulus, CertifiedFirst, FirstMatches, AllDecode,
         ListedModulus, VerifyVerdict, Scan;
    var value := Submitted(m, n, k);
    VerifyListed(check, Some(cachedKeys), KeysOf(fetched), value, n, k);
    FirstCertified(check, cached, m, n, k);
    CertsRead(check, fetched);
    if KeysOf(fetched).Fetched? {
      FirstCertified(check, fetched, m, n, k);
    }
    if AllRsa(check, cached) {
      CertifiedLimbs(check, cached, cachedKeys, m, n, k);
      ScanFinds(check, cachedKeys, value, n, k);
      CheckScans(check, cachedKeys, value, n, k);
    }
  }

  lemma CheckScans(check: KeyCheck, keys: seq<Jwk>, value: Json, n: nat, k: nat)
    ensures Check(check, Some(keys), Modulus(value), n, k) == Scan(check, keys, value, n, k)
  {
  }

  /** End to end: with a cached key set from one batch of certificates and a refresh that fetches
      another, the limbs of `m` are accepted exactly when a certificate of the first batch or, failing
      that, of the second has modulus `m`, provided all moduli fit n*k bits. */
  lemma VerifyCertified(
    check: KeyCheck, cached: seq<Cert>, cachedKeys: seq<Jwk>, fetched: seq<Cert>, m: nat, n: nat, k: nat)
    requires AllRsa(check, cached) && AllRsa(check, fetched)
    requires KeysOf(cached) == Fetched(cachedKeys)
    requires FitLimbs(cached, m, n, k) && FitLimbs(fetched, m, n, k)
    ensures VerifyVerdict(check, Some(cachedKeys), Modulus(Submitted(m, n, k)), KeysOf(fetched), n, k)
            == Answer(HasModulus(cached, m) || HasModulus(fetched, m))
  {
    hide Submitted, LimbModulus, KeysOf, Check, AllRsa, ModuliBelow, HasModulus, CertifiedModulus;
    CertsReadBack(check, fetched);
    CertifiedLimbs(check, cached, cachedKeys, m, n, k);
    CertifiedLimbs(check, fetched, KeysOf(fetched).keys, m, n, k);
    SmallModuli(cached, m, LimbModulus(n, k));
    SmallModuli(fetched, m, LimbModulus(n, k));
  }

  /** The limbs tell m and the moduli apart as numbers. */
  ghost predicate FitLimbs(certs: seq<Cert>, m: nat, n: nat, k: nat) {
    m < LimbModulus(n, k) && ModuliBelow(certs, LimbModulus(n, k))
  }
}
