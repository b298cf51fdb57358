/** Small vocabulary shared by every layer: bytes, 32-bit words, optional values. */
module Basics {

  type Byte = bv8
  type Bytes = seq<Byte>

  /** The number of values of the source's `uint32_t`. */
  const WORD: int := 0x1_0000_0000

  type U32 = n: nat | n < WORD

  datatype Option<+T> = None | Some(value: T) {
    function GetOr(default: T): T {
      match this
      case Some(v) => v
      case None => default
    }
  }

  function Min(a: nat, b: nat): nat {
    if a <= b then a else b
  }

  /** A `uint32_t` assignment: the value is reduced modulo 2^32. */
  function Wrap(n: nat): U32 {
    if n < WORD then n else n % WORD
  }

  /** `++` on a `uint32_t`. */
  function Inc(n: U32): U32 {
    if n == WORD - 1 then 0 else n + 1
  }

  /** The number that k increments from 1 lead to. */
  function Ordinal(k: nat): U32 {
    if k == 0 then 1 else Inc(Ordinal(k - 1))
  }

  lemma {:induction false} OrdinalIs(k: nat)
    ensures k + 1 < WORD ==> Ordinal(k) == k + 1
  {
    if k > 0 {
      OrdinalIs(k - 1);
    }
  }

  /** A serializer and its parser. The source's are protobuf's, which this model does not define. */
  datatype Codec<!T> = Codec(encode: T -> Bytes, decode: Bytes -> Option<T>)

  /** The one property of a serializer that the theorems assume. */
  ghost predicate RoundTrips<T(!new)>(codec: Codec<T>) {
    forall x :: codec.decode(codec.encode(x)) == Some(x)
  }

  lemma {:induction false} ScaleMonotone(a: nat, b: nat, n: nat)
    ensures a <= b ==> a * n <= b * n
  {
  }

  lemma {:induction false} Quotient(j: nat, q: nat, n: nat, r: nat)
    requires r < n && j == q * n + r
    ensures j / n == q && j % n == r
  {
    ScaleMonotone(j / n + 1, q, n);
    ScaleMonotone(q + 1, j / n, n);
  }

  function Map<A, B>(f: A -> B, s: seq<A>): (r: seq<B>)
    ensures |r| == |s|
    ensures forall i :: 0 <= i < |s| ==> r[i] == f(s[i])
  {
    seq(|s|, i requires 0 <= i < |s| => f(s[i]))
  }

  lemma {:induction false} MapConcat<A, B>(f: A -> B, s: seq<A>, t: seq<A>)
    ensures Map(f, s + t) == Map(f, s) + Map(f, t)
  {
  }

  lemma {:induction false} MappedAfter<A, B>(first: B, f: A -> B, s: seq<A>, k: nat)
    requires k <= |s|
    ensures ([first] + Map(f, s))[k] == if k == 0 then first else f(s[k - 1])
  {
  }

  lemma {:induction false} PrefixChain<T>(a: seq<T>, part: seq<T>, block: seq<T>, all: seq<T>)
    requires part <= block && a + block <= all
    ensures a + part <= all
  {
    forall i | 0 <= i < |a + part| ensures (a + part)[i] == all[i] {
      assert (a + part)[i] == (a + block)[i];
    }
  }

  lemma {:induction false} PrefixTransitive<T>(a: seq<T>, b: seq<T>, c: seq<T>)
    requires a <= b <= c
    ensures a <= c
  {
  }

  lemma {:induction false} IndexIn<T>(s: seq<T>, x: T) returns (i: nat)
    requires x in s
    ensures i < |s| && s[i] == x
  {
    i :| 0 <= i < |s| && s[i] == x;
  }

  lemma {:induction false} SplitAt<T>(s: seq<T>, n: nat)
    requires n <= |s|
    ensures s[..n] + s[n..] == s
  {
  }

  lemma {:induction false} PrefixAndRest<T>(a: seq<T>, b: seq<T>)
    requires a <= b
    ensures a + b[|a|..] == b
  {
  }

  lemma {:induction false} AppendLast<T>(a: seq<T>, b: seq<T>)
    requires b != []
    ensures a + b == a + b[..|b| - 1] + [b[|b| - 1]]
  {
  }

  lemma {:induction false} AppendTwice<T>(a: seq<T>, b: seq<T>, c: seq<T>)
    ensures a + (b + c) == a + b + c
  {
  }

  lemma {:induction false} AppendNothing<T>(a: seq<T>)
    ensures a + [] == a
  {
  }

  lemma {:induction false} FrontAndLast<T>(s: seq<T>)
    requires s != []
    ensures s[..|s| - 1] + [s[|s| - 1]] == s
  {
  }

  lemma {:induction false} TakeStep<T>(a: seq<T>, block: seq<T>, k: nat)
    requires k < |block|
    ensures a + block[..k] + [block[k]] == a + block[..k + 1]
  {
  }

  lemma {:induction false} PrefixOfTake<T>(a: seq<T>, block: seq<T>, k: nat)
    requires k <= |block|
    ensures a <= a + block[..k] <= a + block
  {
  }

  lemma {:induction false} SliceOfPrefix<T>(s: seq<T>, t: seq<T>, i: nat, j: nat)
    requires s <= t && i <= j <= |s|
    ensures t[i..j] == s[i..j]
  {
  }

  lemma {:induction false} SliceOfTail<T>(s: seq<T>, t: seq<T>, i: nat, j: nat)
    requires i <= j <= |t|
    ensures (s + t)[|s| + i..|s| + j] == t[i..j]
  {
  }
}
