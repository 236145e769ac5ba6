/** Turning the 8 pseudorandom bytes drawn from a VRF output into the secret
    number. Commit and verify both call `DeriveSecret`, so they cannot differ. */
module SecretNumber {
  import opened Bytes

  /** The secret lies in [0, MAX_SECRET_NUMBER). */
  const MAX_SECRET_NUMBER: u8 := 10

  /** The u64 read little-endian from b, reduced modulo MAX_SECRET_NUMBER and
      narrowed to u8. The narrowing never truncates, because the residue is
      below 10. */
  function DeriveSecret(b: Bytes8): (secret: u8)
    ensures secret < MAX_SECRET_NUMBER
    ensures (WeightedSum(b) - secret as int) % MAX_SECRET_NUMBER as int == 0
  {
    var x := U64FromLeBytes(b);
    var residue := x % (MAX_SECRET_NUMBER as u64);
    ResidueDivides(x as int, residue as int);
    residue as u8
  }

  lemma ResidueDivides(v: nat, r: int)
    requires r == v % 10
    ensures (v - r) % 10 == 0
  {
  }

  /** The number of x in [0, n) with x % m == r. */
  function CountResidue(n: nat, m: nat, r: nat): nat
    requires m > 0
  {
    if n == 0 then 0 else CountResidue(n - 1, m, r) + (if (n - 1) % m == r then 1 else 0)
  }

  lemma DivModStep(n: nat, m: nat)
    requires m > 0 && n > 0
    ensures (n - 1) % m + 1 < m ==> n / m == (n - 1) / m && n % m == (n - 1) % m + 1
    ensures (n - 1) % m + 1 == m ==> n / m == (n - 1) / m + 1 && n % m == 0
  {
    var q, s := (n - 1) / m, (n - 1) % m;
    assert n == q * m + s + 1;
    if s + 1 < m {
      DivModUnique(n, m, q, s + 1);
    } else {
      assert n == (q + 1) * m;
      DivModUnique(n, m, q + 1, 0);
    }
  }

  lemma DivModUnique(n: nat, m: nat, q: nat, s: nat)
    requires m > 0 && s < m && n == q * m + s
    ensures n / m == q && n % m == s
  {
    var q', s' := n / m, n % m;
    assert (q - q') * m == s' - s;
    if q > q' {
      assert (q - q') * m >= m by { MulAtLeast(q - q', m); }
    } else if q < q' {
      assert (q' - q) * m >= m by { MulAtLeast(q' - q, m); }
    }
  }

  lemma MulAtLeast(k: int, m: nat)
    requires k >= 1
    ensures k * m >= m
  {
  }

  /** Reduction modulo m of every number below n hits each residue r either
      n / m times or once more, the extra hit going to the n % m smallest
      residues. */
  lemma {:induction false} CountResidueClosedForm(n: nat, m: nat, r: nat)
    requires m > 0 && r < m
    ensures CountResidue(n, m, r) == n / m + (if r < n % m then 1 else 0)
  {
    if n > 0 {
      CountResidueClosedForm(n - 1, m, r);
      DivModStep(n, m);
    }
  }

  /** The bias of the reduction: of the 2^64 values `u64::from_le_bytes` can
      return, the secrets 0 to 5 each come from one value more than the
      secrets 6 to 9 do. */
  lemma SecretBias(secret: u8)
    requires secret < MAX_SECRET_NUMBER
    ensures CountResidue(U64_MODULUS, MAX_SECRET_NUMBER as nat, secret as nat)
            == 1_844_674_407_370_955_161 + (if secret < 6 then 1 else 0)
  {
    CountResidueClosedForm(U64_MODULUS, MAX_SECRET_NUMBER as nat, secret as nat);
  }
}
