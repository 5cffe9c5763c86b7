/** Shared vocabulary of the storage engine: bytes, 64-bit words, error kinds,
    result wrappers and the integer facts the layers share. */
module Common {

  /** One byte of a block, as its value. */
  type u8 = x: int | 0 <= x < 256

  /** An unsigned 64-bit value (block ids, inode ids, attributes). */
  type u64 = x: nat | x < 0x1_0000_0000_0000_0000

  /** Number of bits in a byte. */
  const BitsPerByte: nat := 8

  /** Size in bytes of a stored block id or inode id. */
  const WordSize: nat := 8

  /** The "no block" sentinel: the zeroed value of a table entry or slot. */
  const InvalidBlockId: nat := 0

  /** The error kinds of the engine. */
  datatype ErrorType = InvalidArg | OutOfResource | NotExist | AlreadyExist | NotEmpty

  datatype Option<T> = None | Some(value: T)

  /** A success value or one error kind. */
  datatype Result<T> = Ok(value: T) | Err(error: ErrorType)

  /** A result without a success value. */
  datatype Status = Done | Fail(error: ErrorType) {
    predicate IsOk() { Done? }
  }

  function Zeros(n: nat): (z: seq<u8>)
    ensures |z| == n && forall i :: 0 <= i < n ==> z[i] == 0
  {
    seq(n, _ => 0)
  }

  function Min(a: int, b: int): int { if a <= b then a else b }
  function Max(a: int, b: int): int { if a >= b then a else b }

  /** Appending is associative. */
  lemma AppendAssoc<T>(a: seq<T>, b: seq<T>, c: seq<T>)
    ensures (a + b) + c == a + (b + c)
  {
  }

  /** Ceiling division as written in the source: one more than the quotient
      whenever there is a remainder. */
  function CeilDiv(n: nat, d: nat): nat
    requires d > 0
  {
    if n % d != 0 then n / d + 1 else n / d
  }

  /** CeilDiv is the least k with k * d >= n. */
  lemma CeilDivIsLeast(n: nat, d: nat)
    requires d > 0
    ensures CeilDiv(n, d) * d >= n
    ensures CeilDiv(n, d) == 0 || (CeilDiv(n, d) - 1) * d < n
  {
    var q, r := n / d, n % d;
    assert n == q * d + r;
    if r != 0 {
      assert (q + 1) * d == q * d + d;
    } else if q > 0 {
      assert (q - 1) * d == q * d - d;
    }
  }

  /** The source's spelling of ceiling division: bump the quotient when
      quotient times divisor falls short. */
  lemma CeilDivAsWritten(n: nat, d: nat)
    requires d > 0
    ensures CeilDiv(n, d) == if (n / d) * d < n then n / d + 1 else n / d
  {
    assert n == (n / d) * d + n % d;
  }

  /** Division and remainder recover the quotient and remainder they were built from. */
  lemma DivModOf(q: nat, r: nat, d: nat)
    requires r < d
    ensures (q * d + r) / d == q && (q * d + r) % d == r
  {
    var x := q * d + r;
    assert x == (x / d) * d + x % d;
    if x / d > q {
      MulMono(q + 1, x / d, d);
    } else if x / d < q {
      MulMono(x / d + 1, q, d);
    }
  }

  lemma MulMono(a: nat, b: nat, d: nat)
    requires a <= b
    ensures a * d <= b * d
  {}

  /** A number below count * d splits into a block below count and an offset below d. */
  lemma DivBelow(x: nat, count: nat, d: nat)
    requires d > 0 && x < count * d
    ensures x / d < count
  {
    assert x == (x / d) * d + x % d;
    if x / d >= count {
      MulMono(count, x / d, d);
    }
  }

  /** Dividing by a multiple of d gives at most the quotient by d. */
  lemma DivByMultiple(x: nat, d: nat, k: nat)
    requires d > 0 && k > 0
    ensures x / (k * d) <= x / d
  {
    var q := x / (k * d);
    assert q * (k * d) <= x;
    MulMono(1, k, q * d);
    assert q * d <= q * (k * d);
    assert x == (x / d) * d + x % d;
    if x / d < q {
      MulMono(x / d + 1, q, d);
    }
  }

  /** Two numbers with the same quotient and remainder are equal. */
  lemma DivModInjective(x: nat, y: nat, d: nat)
    requires d > 0 && x / d == y / d && x % d == y % d
    ensures x == y
  {
    assert x == (x / d) * d + x % d;
    assert y == (y / d) * d + y % d;
  }

  // ---------------------------------------------------------------------
  // Block arithmetic. Layouts place record i of size d at i * d and find the
  // record holding x as x / d, x % d. The proofs use these definitions by
  // repeated addition and subtraction, which the solver unfolds one step at
  // a time; the bridging lemmas tie them to *, / and %.

  /** n * d as n additions of d. */
  function Mul(n: nat, d: nat): nat {
    if n == 0 then 0 else Mul(n - 1, d) + d
  }

  /** x / d as the number of whole d-sized blocks below x. */
  function Quotient(x: nat, d: nat): nat
    requires d > 0
    decreases x
  {
    if x < d then 0 else 1 + Quotient(x - d, d)
  }

  /** x % d as the position of x inside its d-sized block. */
  function Remainder(x: nat, d: nat): (r: nat)
    requires d > 0
    ensures r < d
    decreases x
  {
    if x < d then x else Remainder(x - d, d)
  }

  lemma {:induction false} MulIsProduct(n: nat, d: nat)
    ensures Mul(n, d) == n * d
  {
    if n > 0 {
      MulIsProduct(n - 1, d);
      assert (n - 1) * d + d == n * d;
    }
  }

  lemma {:induction false} MulMonotone(a: nat, b: nat, d: nat)
    requires a <= b
    ensures Mul(a, d) <= Mul(b, d)
  {
    if a < b {
      MulMonotone(a, b - 1, d);
    }
  }

  /** x is Quotient whole blocks plus the Remainder. */
  lemma {:induction false} QuotientRemainder(x: nat, d: nat)
    requires d > 0
    ensures x == Mul(Quotient(x, d), d) + Remainder(x, d)
  {
    if x >= d {
      QuotientRemainder(x - d, d);
    }
  }

  /** Splitting q whole blocks plus r < d gives back q and r. */
  lemma {:induction false} QuotientRemainderOf(q: nat, r: nat, d: nat)
    requires r < d
    ensures Quotient(Mul(q, d) + r, d) == q && Remainder(Mul(q, d) + r, d) == r
  {
    if q > 0 {
      QuotientRemainderOf(q - 1, r, d);
    }
  }

  /** A position within count blocks lies in a block below count. */
  lemma {:induction false} QuotientBelow(x: nat, d: nat, count: nat)
    requires d > 0 && x < Mul(count, d)
    ensures Quotient(x, d) < count
  {
    if x >= d {
      QuotientBelow(x - d, d, count - 1);
    }
  }

  /** Two splits into a block and an offset below d agree only when both parts agree. */
  lemma {:induction false} SameSplit(i: nat, q: nat, j: nat, p: nat, d: nat)
    requires q < d && p < d && Mul(i, d) + q == Mul(j, d) + p
    ensures i == j && q == p
  {
    QuotientRemainderOf(i, q, d);
    QuotientRemainderOf(j, p, d);
  }

  /** Quotient and Remainder are the division and remainder operators. */
  lemma {:induction false} QuotientIsDiv(x: nat, d: nat)
    requires d > 0
    ensures Quotient(x, d) == x / d && Remainder(x, d) == x % d
  {
    QuotientRemainder(x, d);
    MulIsProduct(Quotient(x, d), d);
    DivModOf(Quotient(x, d), Remainder(x, d), d);
  }
}
