/** The counters that number payloads and transfers: 32 bits, never 0. */
module IdGenerator {
  import opened Basics

  /** The id handed out for a counter value, and the counter afterwards. */
  function NextId(counter: U32): (U32, U32) {
    var next := Inc(counter);
    if counter == 0 then (next, Inc(next)) else (counter, next)
  }

  function CounterAt(seed: U32, k: nat): U32 {
    if k == 0 then seed else NextId(CounterAt(seed, k - 1)).1
  }

  /** The k-th id handed out, counted from 0. */
  function IdAt(seed: U32, k: nat): U32 {
    NextId(CounterAt(seed, k)).0
  }

  lemma {:induction false} NextRemainder(a: nat, m: nat)
    requires m > 0
    ensures (a + 1) % m == if a % m == m - 1 then 0 else a % m + 1
  {
    var q, r := a / m, a % m;
    if r == m - 1 {
      assert (q + 1) * m == q * m + m;
      Quotient(a + 1, q + 1, m, 0);
    } else {
      Quotient(a + 1, q, m, r + 1);
    }
  }

  lemma {:induction false} IdsAdvance(seed: U32, k: nat)
    requires k > 0
    ensures IdAt(seed, k) == if IdAt(seed, k - 1) == WORD - 1 then 1 else IdAt(seed, k - 1) + 1
  {
  }

  /** The k-th id, with a name for its distance from id 1. */
  lemma {:induction false} IdsCycle(seed: U32, k: nat, a: nat)
    requires a == (if seed == 0 then 0 else seed - 1) + k
    ensures IdAt(seed, k) == 1 + a % (WORD - 1)
  {
    var m: nat := WORD - 1;
    if k > 0 {
      IdsCycle(seed, k - 1, a - 1);
      IdsAdvance(seed, k);
      NextRemainder(a - 1, m);
    } else {
      Quotient(a, 0, m, a);
    }
  }

  /** From any seed no id is 0, and two ids are equal only a multiple of 2^32 - 1 apart. */
  lemma {:induction false} IdsDiffer(seed: U32, i: nat, j: nat)
    ensures IdAt(seed, i) != 0
    ensures IdAt(seed, i) == IdAt(seed, j) <==> (i - j) % (WORD - 1) == 0
  {
    var first := if seed == 0 then 0 else seed - 1;
    IdsCycle(seed, i, first + i);
    IdsCycle(seed, j, first + j);
    SameRemainder(first + i, first + j);
  }

  lemma {:induction false} SameRemainder(a: nat, b: nat)
    ensures a % (WORD - 1) == b % (WORD - 1) <==> (a - b) % (WORD - 1) == 0
  {
    var m := WORD - 1;
    var q := a / m - b / m;
    assert a - b == m * q + (a % m - b % m);
  }

  /** The first n ids are all different if and only if there are at most 2^32 - 1 of them. */
  lemma {:induction false} IdsSufficeExactly(seed: U32, n: nat)
    ensures (forall i, j :: 0 <= i < j < n ==> IdAt(seed, i) != IdAt(seed, j)) <==> n <= WORD - 1
  {
    forall i, j | 0 <= i < j < n && n <= WORD - 1 ensures IdAt(seed, i) != IdAt(seed, j) {
      IdsDiffer(seed, j, i);
      assert 0 < j - i < WORD - 1;
    }
    if n > WORD - 1 {
      IdsDiffer(seed, WORD - 1, 0);
      assert IdAt(seed, 0) == IdAt(seed, WORD - 1);
    }
  }
}
