/** Machine words as the integers they hold. Shifts are multiplications and divisions by powers
    of two, masks of a bit range are remainders, and an OR of disjoint bit ranges is a sum. */
module Words {

  const TWO_31: nat := 0x8000_0000
  const TWO_32: nat := 0x1_0000_0000
  const TWO_52: nat := 0x10_0000_0000_0000
  const TWO_63: nat := 0x8000_0000_0000_0000
  const TWO_64: nat := 0x1_0000_0000_0000_0000

  type u32 = n: nat | n < TWO_32
  type u64 = n: nat | n < TWO_64

  datatype Option<+T> = None | Some(value: T)

  function Pow2(n: nat): nat { if n == 0 then 1 else 2 * Pow2(n - 1) }

  lemma {:induction false} Pow2Positive(n: nat)
    ensures Pow2(n) >= 1
  {
    if n > 0 { Pow2Positive(n - 1); }
  }

  lemma {:induction false} Pow2Sum(a: nat, b: nat)
    ensures Pow2(a + b) == Pow2(a) * Pow2(b)
  {
    if a > 0 { Pow2Sum(a - 1, b); }
  }

  lemma Pow2Of64()
    ensures Pow2(64) == TWO_64
  {
    assert Pow2(8) == 0x100;
    Pow2Sum(8, 8);
    Pow2Sum(16, 16);
    Pow2Sum(32, 32);
  }

  // ----- sums -----

  function Sum(xs: seq<nat>): nat {
    if xs == [] then 0 else Sum(xs[..|xs| - 1]) + xs[|xs| - 1]
  }

  lemma {:induction false} SumMove(xs: seq<nat>, i: nat, x: nat)
    requires i < |xs|
    ensures Sum(xs[i := x]) + xs[i] == Sum(xs) + x
  {
    var n := |xs| - 1;
    if i < n {
      SumMove(xs[..n], i, x);
      assert xs[i := x][..n] == xs[..n][i := x];
    } else {
      assert xs[i := x][..n] == xs[..n];
    }
  }

  lemma {:induction false} SumRemove(xs: seq<nat>, i: nat)
    requires i < |xs|
    ensures Sum(xs) == Sum(xs[..i] + xs[i + 1..]) + xs[i]
  {
    var n := |xs| - 1;
    var rest := xs[..i] + xs[i + 1..];
    if i < n {
      SumRemove(xs[..n], i);
      assert rest[..n - 1] == xs[..n][..i] + xs[..n][i + 1..];
    } else {
      assert rest == xs[..n];
    }
  }

  lemma {:induction false} SumZero(xs: seq<nat>)
    requires forall i | 0 <= i < |xs| :: xs[i] == 0
    ensures Sum(xs) == 0
  {
    if xs != [] { SumZero(xs[..|xs| - 1]); }
  }

  // ----- sums modulo 2^32 -----

  lemma ModSum(a: nat, b: nat, c: nat, d: nat)
    requires a % TWO_32 == b % TWO_32 && c % TWO_32 == d % TWO_32
    ensures (a + c) % TWO_32 == (b + d) % TWO_32
  {
    ModOfSum(a, c);
    ModOfSum(b, d);
  }

  lemma ModOfSum(a: nat, c: nat)
    ensures (a + c) % TWO_32 == (a % TWO_32 + c % TWO_32) % TWO_32
  {
    var q, r := a / TWO_32 + c / TWO_32, a % TWO_32 + c % TWO_32;
    assert a + c == q * TWO_32 + r;
    assert a + c == (q + r / TWO_32) * TWO_32 + r % TWO_32;
  }

  lemma AddMod(a: nat, c: u32)
    ensures (a % TWO_32 + c) % TWO_32 == (a + c) % TWO_32
  {
    ModOfSum(a, c);
  }
}
