/** Limbs to public-key bytes (gnark-prover/src/tako_gnark_ecdsa/pub2addr.go) and bytes to an address
    variable (gnark-prover/src/tako_gnark_ecdsa/utils.go). */
module PublicKey {
  import opened Positional
  import opened R1csFormat

  const LIMB_BASE := 0x1_0000_0000_0000_0000
  const SECP256K1_P: nat := 0xFFFFFFFF_FFFFFFFF_FFFFFFFF_FFFFFFFF_FFFFFFFF_FFFFFFFF_FFFFFFFE_FFFFFC2F
  const ADDRESS_LENGTH := 20

  /** The field prime of secp256k1: 2^256 - 2^32 - 977. */
  lemma PrimeIsSecp256k1()
    ensures SECP256K1_P == Pow(2, 256) - Pow(2, 32) - 977
  {
    PowPow(2, 8, 32);
    PowPow(2, 8, 4);
    assert Pow(2, 4) == 16 && Pow(2, 8) == 256;
    PowersOf256();
    PowValues();
  }

  function BigEndian(v: nat, n: nat): (b: seq<nat>)
    ensures |b| == n
  {
    Reverse(Digits(256, v, n))
  }

  // ---- big-endian encodings ----

  lemma BigEndianValue(v: nat, n: nat)
    ensures BigValue(256, BigEndian(v, n)) == v % Pow(256, n)
    ensures AreDigits(256, BigEndian(v, n))
  {
    BigIsReversed(256, Digits(256, v, n));
    DigitsValue(256, v, n);
  }

  /** Four limbs, most significant first, spelled out in eight bytes each. */
  function LimbBytes(limbs: seq<nat>): (b: seq<nat>)
    ensures |b| == 8 * |limbs|
  {
    if limbs == [] then [] else LimbBytes(limbs[..|limbs| - 1]) + BigEndian(limbs[|limbs| - 1], 8)
  }

  lemma {:induction false} LimbBytesValue(limbs: seq<nat>)
    requires AreDigits(LIMB_BASE, limbs)
    ensures BigValue(256, LimbBytes(limbs)) == BigValue(LIMB_BASE, limbs)
    ensures AreDigits(256, LimbBytes(limbs))
    ensures BigValue(LIMB_BASE, limbs) < Pow(256, 8 * |limbs|)
  {
    if limbs != [] {
      hide BigEndian, Pow;
      var k := |limbs| - 1;
      var last := limbs[k];
      LimbBytesValue(limbs[..k]);
      BigEndianValue(last, 8);
      PowValues();
      DivModUnique(last, LIMB_BASE, 0, last);
      BigValueAppend(256, LimbBytes(limbs[..k]), BigEndian(last, 8));
    }
    BigBound(256, LimbBytes(limbs));
  }

  lemma BigBound(b: nat, ds: seq<nat>)
    requires AreDigits(b, ds)
    ensures BigValue(b, ds) < Pow(b, |ds|)
  {
    BigIsReversed(b, ds);
    ValueBound(b, Reverse(ds));
  }

  // ---- the hint ----

  lemma HornerStep(x: nat, v: nat, z: nat, a: nat, p: nat)
    requires p > 0 && x == v % p
    ensures (ModMul(x, z % p, p) + a % p) % p == (v * z + a) % p
  {
    hide ModMul;
    ModMulAbsorb(v, z % p, p);
    ModMulCommutes(v, z % p, p);
    ModMulAbsorb(z, v, p);
    ModMulCommutes(z, v, p);
    ModMulIs(v, z, p);
    MulMono(0, v, z);
    ModAddAbsorb(v * z, a % p, p);
    ModAddAbsorb(a, v * z, p);
  }

  lemma NextDigit(b: nat, ds: seq<nat>, i: nat, x: nat, p: nat)
    requires i < |ds| && p > 0 && x == BigValue(b, ds[..i]) % p
    ensures (ModMul(x, b % p, p) + ds[i] % p) % p == BigValue(b, ds[..i + 1]) % p
  {
    hide ModMul;
    HornerStep(x, BigValue(b, ds[..i]), b, ds[i], p);
    assert ds[..i + 1][..i] == ds[..i];
  }

  lemma NextByte(ds: seq<nat>, i: nat, x: nat)
    requires i < |ds| && x == BigValue(256, ds[..i]) % BN254_PRIME
    ensures (ModMul(x, 256, BN254_PRIME) + ds[i]) % BN254_PRIME == BigValue(256, ds[..i + 1]) % BN254_PRIME
  {
    hide ModMul, BigValue;
    NextDigit(256, ds, i, x, BN254_PRIME);
    ModAddAbsorb(ds[i], ModMul(x, 256, BN254_PRIME), BN254_PRIME);
  }

  lemma NoDigit(b: nat, ds: seq<nat>)
    ensures BigValue(b, ds[..0]) == 0
  {
  }

  lemma OneDigit(b: nat, ds: seq<nat>)
    requires ds != []
    ensures BigValue(b, ds[..1]) == ds[0]
  {
    assert ds[..1][..0] == [];
  }

  /** One coordinate from four limbs, by Horner's rule in the field. */
  method Recompose(limbs: seq<nat>) returns (x: nat)
    requires |limbs| == 4
    ensures x == BigValue(LIMB_BASE, limbs) % SECP256K1_P
  {
    hide ModMul, BigValue;
    x := limbs[0] % SECP256K1_P;
    OneDigit(LIMB_BASE, limbs);
    var i := 1;
    while i < 4
      invariant 1 <= i <= 4
      invariant x == BigValue(LIMB_BASE, limbs[..i]) % SECP256K1_P
    {
      var z := LIMB_BASE % SECP256K1_P;
      var a := limbs[i] % SECP256K1_P;
      NextDigit(LIMB_BASE, limbs, i, x, SECP256K1_P);
      x := (ModMul(x, z, SECP256K1_P) + a) % SECP256K1_P;
      i := i + 1;
    }
    assert limbs[..4] == limbs;
  }

  /** The outputs are the 32-byte big-endian encodings of the two coordinates; anything but eight
      inputs is an error that writes nothing. */
  method Pub2AddrHint(inputs: seq<nat>, outputs: array<nat>) returns (failed: bool)
    requires outputs.Length >= 64
    modifies outputs
    ensures failed <==> |inputs| != 8
    ensures failed ==> outputs[..] == old(outputs[..])
    ensures !failed ==>
              && AreDigits(256, outputs[..64])
              && BigValue(256, outputs[..32]) == BigValue(LIMB_BASE, inputs[..4]) % SECP256K1_P
              && BigValue(256, outputs[32..64]) == BigValue(LIMB_BASE, inputs[4..]) % SECP256K1_P
              && outputs[64..] == old(outputs[64..])
  {
    hide BigEndian, BigValue, Pow;
    if |inputs| != 8 {
      return true;
    }
    var x := Recompose(inputs[..4]);
    var y := Recompose(inputs[4..]);
    FieldBytes(x);
    FieldBytes(y);
    var pubBytes := [0x04] + BigEndian(x, 32) + BigEndian(y, 32);
    var i := 0;
    while i < 64
      invariant 0 <= i <= 64
      invariant forall k :: 0 <= k < i ==> outputs[k] == pubBytes[k + 1]
      invariant outputs[64..] == old(outputs[64..])
    {
      outputs[i] := pubBytes[i + 1];
      i := i + 1;
    }
    assert outputs[..32] == BigEndian(x, 32);
    assert outputs[32..64] == BigEndian(y, 32);
    assert outputs[..64] == outputs[..32] + outputs[32..64];
    return false;
  }

  /** A field element fills 32 bytes exactly. */
  lemma FieldBytes(x: nat)
    requires x < SECP256K1_P
    ensures BigValue(256, BigEndian(x, 32)) == x && AreDigits(256, BigEndian(x, 32))
  {
    hide BigEndian;
    BigEndianValue(x, 32);
    PowersOf256();
    DivModUnique(x, Pow(256, 32), 0, x);
  }

  lemma PowersOf256()
    ensures Pow(256, 20) == 0x1_00000000_00000000_00000000_00000000_00000000
    ensures Pow(256, 32)
            == 0x1_00000000_00000000_00000000_00000000_00000000_00000000_00000000_00000000
  {
    PowValues();
    PowAdd(256, 8, 8);
    PowAdd(256, 16, 4);
    PowAdd(256, 16, 16);
  }

  /** For limbs below 2^64, the 32 bytes of a coordinate are the four limbs written out one after the
      other exactly when the number the limbs spell is below the field prime. */
  lemma BytesAreLimbsIff(limbs: seq<nat>, bytes: seq<nat>)
    requires |limbs| == 4 && AreDigits(LIMB_BASE, limbs)
    requires |bytes| == 32 && AreDigits(256, bytes)
    requires BigValue(256, bytes) == BigValue(LIMB_BASE, limbs) % SECP256K1_P
    ensures bytes == LimbBytes(limbs) <==> BigValue(LIMB_BASE, limbs) < SECP256K1_P
  {
    hide BigValue, LimbBytes;
    LimbBytesValue(limbs);
    if BigValue(LIMB_BASE, limbs) < SECP256K1_P {
      BigEndianUnique(bytes, LimbBytes(limbs));
    }
  }

  // ---- the address variable ----

  /** Base-256 recomposition of the first 20 variables in the circuit's field. */
  method BigEndianBytesToVar(data: seq<nat>) returns (x: nat)
    requires |data| >= 20
    ensures x == BigValue(256, data[..20]) % BN254_PRIME
    ensures AreDigits(256, data[..20]) ==> x == BigValue(256, data[..20])
  {
    hide ModMul, Pow, BigValue;
    x := 0;
    NoDigit(256, data);
    var i := 0;
    while i < ADDRESS_LENGTH
      invariant 0 <= i <= ADDRESS_LENGTH
      invariant x == BigValue(256, data[..i]) % BN254_PRIME
    {
      NextByte(data, i, x);
      x := ModMul(x, 256, BN254_PRIME);
      x := (x + data[i]) % BN254_PRIME;
      i := i + 1;
    }
    if AreDigits(256, data[..ADDRESS_LENGTH]) {
      BigBound(256, data[..ADDRESS_LENGTH]);
      PowersOf256();
      DivModUnique(BigValue(256, data[..ADDRESS_LENGTH]), BN254_PRIME, 0, BigValue(256, data[..ADDRESS_LENGTH]));
    }
  }

  /** The big-endian split of any 20-byte address is bytes that read back as the address, so the
      variable recomposed from it is the address. */
  lemma AddressSplit(address: nat)
    requires address < Pow(256, 20)
    ensures |BigEndian(address, 20)| == 20 && AreDigits(256, BigEndian(address, 20))
    ensures BigValue(256, BigEndian(address, 20)) == address
  {
    hide Pow;
    BigEndianValue(address, ADDRESS_LENGTH);
    DivModUnique(address, Pow(256, ADDRESS_LENGTH), 0, address);
  }
}
