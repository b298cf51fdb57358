/**
 Lists of numbered pieces. Both reassembly layers of the program keep such a list, sort it by number
 after every arrival, and glue the pieces together; both layers share the facts proved here.
 `key` reads the number of a piece and `body` its bytes.
 */
module Numbered {
  import opened Basics

  ghost predicate StrictlySorted<F>(key: F -> nat, s: seq<F>) {
    forall i, j :: 0 <= i < j < |s| ==> key(s[i]) < key(s[j])
  }

  ghost predicate Sorted<F>(key: F -> nat, s: seq<F>) {
    forall i, j :: 0 <= i < j < |s| ==> key(s[i]) <= key(s[j])
  }

  /** The pieces of a message, numbered from 1 in order. */
  ghost predicate Enumerated<F>(key: F -> nat, s: seq<F>) {
    forall i :: 0 <= i < |s| ==> key(s[i]) == i + 1
  }

  function Insert<F>(key: F -> nat, s: seq<F>, x: F): seq<F> {
    if s == [] then [x]
    else if key(s[|s| - 1]) <= key(x) then s + [x]
    else Insert(key, s[..|s| - 1], x) + [s[|s| - 1]]
  }

  /** What `std::sort` leaves behind; `SortIsTheSort` shows there is no other choice. */
  function Sort<F>(key: F -> nat, s: seq<F>): seq<F> {
    if s == [] then [] else Insert(key, Sort(key, s[..|s| - 1]), s[|s| - 1])
  }

  function JoinBy<F>(body: F -> Bytes, s: seq<F>): Bytes {
    if s == [] then [] else JoinBy(body, s[..|s| - 1]) + body(s[|s| - 1])
  }

  /** The pieces of `all` whose numbers (counted from 1) are in `have`, in order. */
  ghost function Held<F>(all: seq<F>, have: set<nat>): seq<F> {
    if all == [] then []
    else Held(all[..|all| - 1], have) + if |all| in have then [all[|all| - 1]] else []
  }

  predicate Has<F>(key: F -> nat, s: seq<F>, num: nat) {
    exists i :: 0 <= i < |s| && key(s[i]) == num
  }

  ghost predicate Full(n: nat, have: set<nat>) {
    forall k :: 1 <= k <= n ==> k in have
  }

  // ---- Sorting ----

  lemma {:induction false} InsertContents<F>(key: F -> nat, s: seq<F>, x: F)
    ensures multiset(Insert(key, s, x)) == multiset(s) + multiset{x}
    ensures forall i :: 0 <= i < |Insert(key, s, x)| ==> Insert(key, s, x)[i] in s || Insert(key, s, x)[i] == x
  {
    if s != [] {
      var front, last := s[..|s| - 1], s[|s| - 1];
      assert s == front + [last];
      if key(last) > key(x) {
        InsertContents(key, front, x);
      }
    }
  }

  lemma {:induction false} InsertSorts<F>(key: F -> nat, s: seq<F>, x: F)
    requires Sorted(key, s)
    ensures Sorted(key, Insert(key, s, x))
  {
    if s != [] && key(s[|s| - 1]) > key(x) {
      var front, last := s[..|s| - 1], s[|s| - 1];
      InsertSorts(key, front, x);
      InsertBelow(key, front, x, last);
    }
  }

  lemma {:induction false} InsertStrictlySorts<F>(key: F -> nat, s: seq<F>, x: F)
    requires StrictlySorted(key, s)
    requires forall i :: 0 <= i < |s| ==> key(s[i]) != key(x)
    ensures StrictlySorted(key, Insert(key, s, x))
  {
    if s != [] && key(s[|s| - 1]) > key(x) {
      var front, last := s[..|s| - 1], s[|s| - 1];
      InsertStrictlySorts(key, front, x);
      InsertBelow(key, front, x, last);
    }
  }

  lemma {:induction false} InsertBelow<F>(key: F -> nat, s: seq<F>, x: F, top: F)
    ensures (forall i :: 0 <= i < |s| ==> key(s[i]) <= key(top)) && key(x) <= key(top)
        ==> forall i :: 0 <= i < |Insert(key, s, x)| ==> key(Insert(key, s, x)[i]) <= key(top)
    ensures (forall i :: 0 <= i < |s| ==> key(s[i]) < key(top)) && key(x) < key(top)
        ==> forall i :: 0 <= i < |Insert(key, s, x)| ==> key(Insert(key, s, x)[i]) < key(top)
  {
    InsertContents(key, s, x);
  }

  lemma {:induction false} SortContract<F>(key: F -> nat, s: seq<F>)
    ensures Sorted(key, Sort(key, s))
    ensures multiset(Sort(key, s)) == multiset(s)
  {
    if s != [] {
      SortContract(key, s[..|s| - 1]);
      assert s == s[..|s| - 1] + [s[|s| - 1]];
      InsertContents(key, Sort(key, s[..|s| - 1]), s[|s| - 1]);
      InsertSorts(key, Sort(key, s[..|s| - 1]), s[|s| - 1]);
    }
  }

  lemma {:induction false} Without<F>(key: F -> nat, s: seq<F>, k: nat) returns (r: seq<F>)
    requires k < |s|
    requires forall i, j :: 0 <= i < j < |s| ==> key(s[i]) != key(s[j])
    ensures |r| == |s| - 1 && multiset(r) == multiset(s) - multiset{s[k]}
    ensures forall i, j :: 0 <= i < j < |r| ==> key(r[i]) != key(r[j])
  {
    r := s[..k] + s[k + 1..];
    assert s == s[..k] + [s[k]] + s[k + 1..];
    forall i, j | 0 <= i < j < |r| ensures key(r[i]) != key(r[j]) {
      assert r[i] == s[if i < k then i else i + 1];
      assert r[j] == s[if j < k then j else j + 1];
    }
  }

  lemma {:induction false} MultisetFront<F>(t: seq<F>)
    requires t != []
    ensures multiset(t[..|t| - 1]) == multiset(t) - multiset{t[|t| - 1]}
  {
    assert t == t[..|t| - 1] + [t[|t| - 1]];
  }

  lemma {:induction false} LastIsGreatest<F>(key: F -> nat, s: seq<F>, t: seq<F>) returns (k: nat)
    requires Sorted(key, t) && multiset(t) == multiset(s) && t != []
    ensures k < |s| && s[k] == t[|t| - 1]
    ensures forall i :: 0 <= i < |s| ==> key(s[i]) <= key(s[k])
  {
    assert t[|t| - 1] in multiset(t);
    assert t[|t| - 1] in s;
    k :| 0 <= k < |s| && s[k] == t[|t| - 1];
    forall i | 0 <= i < |s| ensures key(s[i]) <= key(s[k]) {
      assert s[i] in multiset(s);
      assert s[i] in t;
      var j :| 0 <= j < |t| && t[j] == s[i];
    }
  }

  lemma {:induction false} SortedFront<F>(key: F -> nat, t: seq<F>)
    requires Sorted(key, t) && t != []
    ensures Sorted(key, t[..|t| - 1])
  {
  }

  lemma {:induction false} SameSize<F>(s: seq<F>, t: seq<F>)
    requires multiset(s) == multiset(t)
    ensures |s| == |t|
  {
    assert |s| == |multiset(s)| && |t| == |multiset(t)|;
  }

  /** Two sorted lists of the same pieces with different keys end in the same piece. */
  lemma {:induction false} SameLast<F>(key: F -> nat, s: seq<F>, t: seq<F>, u: seq<F>) returns (k: nat)
    requires forall i, j :: 0 <= i < j < |s| ==> key(s[i]) != key(s[j])
    requires Sorted(key, t) && multiset(t) == multiset(s) && t != []
    requires Sorted(key, u) && multiset(u) == multiset(s) && u != []
    ensures k < |s| && s[k] == t[|t| - 1] == u[|u| - 1]
  {
    k := LastIsGreatest(key, s, t);
    var l := LastIsGreatest(key, s, u);
    assert key(s[k]) == key(s[l]);
  }

  lemma {:induction false} SortedPermutationsAgree<F>(key: F -> nat, s: seq<F>, t: seq<F>, u: seq<F>)
    requires forall i, j :: 0 <= i < j < |s| ==> key(s[i]) != key(s[j])
    requires Sorted(key, t) && multiset(t) == multiset(s)
    requires Sorted(key, u) && multiset(u) == multiset(s)
    ensures t == u
    decreases |s|
  {
    SameSize(s, t);
    SameSize(s, u);
    if t != [] {
      var k := SameLast(key, s, t, u);
      var s' := Without(key, s, k);
      MultisetFront(t);
      MultisetFront(u);
      SortedFront(key, t);
      SortedFront(key, u);
      var t', u' := t[..|t| - 1], u[..|u| - 1];
      SortedPermutationsAgree(key, s', t', u');
      FrontAndLast(t);
      FrontAndLast(u);
    }
  }

  /** Any list a sort may return, sorted and with the same elements, is `Sort(key, s)` when the keys differ. */
  lemma {:induction false} SortIsTheSort<F>(key: F -> nat, s: seq<F>, t: seq<F>)
    requires forall i, j :: 0 <= i < j < |s| ==> key(s[i]) != key(s[j])
    requires Sorted(key, t) && multiset(t) == multiset(s)
    ensures t == Sort(key, s)
  {
    SortContract(key, s);
    SortedPermutationsAgree(key, s, t, Sort(key, s));
  }

  lemma {:induction false} SortSorted<F>(key: F -> nat, s: seq<F>)
    requires StrictlySorted(key, s)
    ensures Sort(key, s) == s
  {
    if s != [] {
      SortSorted(key, s[..|s| - 1]);
    }
  }

  /** Appending to a sorted list and sorting is an insertion: what both receivers do on each arrival. */
  lemma {:induction false} SortAfterAppend<F>(key: F -> nat, s: seq<F>, x: F)
    requires StrictlySorted(key, s)
    ensures Sort(key, s + [x]) == Insert(key, s, x)
  {
    assert (s + [x])[..|s|] == s;
    SortSorted(key, s);
  }

  lemma {:induction false} InsertMap<F, G>(keyF: F -> nat, keyG: G -> nat, f: F -> G, s: seq<F>, x: F)
    requires keyG(f(x)) == keyF(x)
    requires forall y :: y in s ==> keyG(f(y)) == keyF(y)
    ensures Map(f, Insert(keyF, s, x)) == Insert(keyG, Map(f, s), f(x))
  {
    if s != [] {
      var front, last := s[..|s| - 1], s[|s| - 1];
      assert Map(f, s)[..|s| - 1] == Map(f, front);
      if keyF(last) > keyF(x) {
        InsertMap(keyF, keyG, f, front, x);
        assert Map(f, Insert(keyF, front, x) + [last]) == Map(f, Insert(keyF, front, x)) + [f(last)];
      }
    }
  }

  // ---- Joining ----

  lemma {:induction false} JoinConcat<F>(body: F -> Bytes, a: seq<F>, b: seq<F>)
    ensures JoinBy(body, a + b) == JoinBy(body, a) + JoinBy(body, b)
  {
    if b == [] {
      assert a + b == a;
    } else {
      assert (a + b)[..|a + b| - 1] == a + b[..|b| - 1];
      JoinConcat(body, a, b[..|b| - 1]);
    }
  }

  /** Only the bytes matter: not the other fields, nor even the type of the pieces. */
  lemma {:induction false} JoinSame<F, G>(bodyF: F -> Bytes, s: seq<F>, bodyG: G -> Bytes, t: seq<G>)
    requires |s| == |t|
    requires forall i :: 0 <= i < |s| ==> bodyF(s[i]) == bodyG(t[i])
    ensures JoinBy(bodyF, s) == JoinBy(bodyG, t)
  {
    if s != [] {
      JoinSame(bodyF, s[..|s| - 1], bodyG, t[..|t| - 1]);
    }
  }

  // ---- The pieces held so far ----

  ghost predicate HeldPiece<F>(key: F -> nat, all: seq<F>, have: set<nat>, x: F) {
    1 <= key(x) <= |all| && key(x) in have && all[key(x) - 1] == x
  }

  lemma {:induction false} HeldStep<F>(all: seq<F>, have: set<nat>)
    requires all != []
    ensures var h, last := Held(all[..|all| - 1], have), all[|all| - 1];
            Held(all, have) == if |all| in have then h + [last] else h
  {
  }

  lemma {:induction false} HeldPieces<F>(key: F -> nat, all: seq<F>, have: set<nat>)
    requires Enumerated(key, all)
    ensures forall i :: 0 <= i < |Held(all, have)| ==> HeldPiece(key, all, have, Held(all, have)[i])
  {
    if all != [] {
      var front := all[..|all| - 1];
      HeldPieces(key, front, have);
      HeldStep(all, have);
      var h := Held(front, have);
      forall i | 0 <= i < |h| ensures HeldPiece(key, all, have, h[i]) {
        assert HeldPiece(key, front, have, h[i]);
      }
    }
  }

  lemma {:induction false} HeldAll<F>(all: seq<F>, have: set<nat>, k: nat)
    requires 1 <= k <= |all| && k in have
    ensures all[k - 1] in Held(all, have)
  {
    HeldStep(all, have);
    if k < |all| {
      var front := all[..|all| - 1];
      HeldAll(front, have, k);
      assert front[k - 1] == all[k - 1];
    }
  }

  lemma {:induction false} HeldSorted<F>(key: F -> nat, all: seq<F>, have: set<nat>)
    requires Enumerated(key, all)
    ensures StrictlySorted(key, Held(all, have))
  {
    if all != [] {
      var front := all[..|all| - 1];
      HeldSorted(key, front, have);
      HeldPieces(key, front, have);
      HeldStep(all, have);
      var h := Held(front, have);
      forall i | 0 <= i < |h| ensures key(h[i]) < |all| {
        assert HeldPiece(key, front, have, h[i]);
      }
    }
  }

  lemma {:induction false} HeldMembers<F>(key: F -> nat, all: seq<F>, have: set<nat>)
    requires Enumerated(key, all)
    ensures forall i :: 0 <= i < |Held(all, have)| ==> HeldPiece(key, all, have, Held(all, have)[i])
    ensures forall k :: 1 <= k <= |all| && k in have ==> all[k - 1] in Held(all, have)
    ensures StrictlySorted(key, Held(all, have))
  {
    HeldPieces(key, all, have);
    HeldSorted(key, all, have);
    forall k | 1 <= k <= |all| && k in have ensures all[k - 1] in Held(all, have) {
      HeldAll(all, have, k);
    }
  }

  lemma {:induction false} HeldHas<F>(key: F -> nat, all: seq<F>, have: set<nat>, k: nat)
    requires Enumerated(key, all) && 1 <= k <= |all|
    ensures Has(key, Held(all, have), k) <==> k in have
  {
    var h := Held(all, have);
    HeldMembers(key, all, have);
    if k in have {
      assert all[k - 1] in h;
    }
    if i :| 0 <= i < |h| && key(h[i]) == k {
      assert HeldPiece(key, all, have, h[i]);
    }
  }

  lemma {:induction false} HeldNothing<F>(all: seq<F>)
    ensures Held(all, {}) == []
  {
    if all != [] {
      HeldNothing(all[..|all| - 1]);
    }
  }

  lemma {:induction false} HeldIgnores<F>(all: seq<F>, have: set<nat>, k: nat)
    requires k == 0 || k > |all|
    ensures Held(all, have + {k}) == Held(all, have)
  {
    if all != [] {
      HeldIgnores(all[..|all| - 1], have, k);
    }
  }

  lemma {:induction false} InsertLast<F>(key: F -> nat, s: seq<F>, x: F)
    requires s == [] || key(s[|s| - 1]) <= key(x)
    ensures Insert(key, s, x) == s + [x]
  {
  }

  lemma {:induction false} InsertBeforeLast<F>(key: F -> nat, s: seq<F>, last: F, x: F)
    requires key(x) < key(last)
    ensures Insert(key, s + [last], x) == Insert(key, s, x) + [last]
  {
    assert (s + [last])[..|s|] == s;
  }

  lemma {:induction false} HeldInsertLast<F>(key: F -> nat, all: seq<F>, have: set<nat>)
    requires Enumerated(key, all) && all != [] && |all| !in have
    ensures Insert(key, Held(all, have), all[|all| - 1]) == Held(all, have + {|all|})
  {
    var front, last := all[..|all| - 1], all[|all| - 1];
    var h := Held(front, have);
    HeldIgnores(front, have, |all|);
    HeldMembers(key, front, have);
    assert h != [] ==> HeldPiece(key, front, have, h[|h| - 1]);
    InsertLast(key, h, last);
    assert h + [] == h;
  }

  /** Sorting one more piece in is adding its number to the set: order of arrival leaves no trace. */
  lemma {:induction false} HeldInsert<F>(key: F -> nat, all: seq<F>, have: set<nat>, k: nat)
    requires Enumerated(key, all) && 1 <= k <= |all| && k !in have
    ensures Insert(key, Held(all, have), all[k - 1]) == Held(all, have + {k})
  {
    if k == |all| {
      HeldInsertLast(key, all, have);
    } else {
      var front, last := all[..|all| - 1], all[|all| - 1];
      HeldInsert(key, front, have, k);
      InsertBeforeLast(key, Held(front, have), last, all[k - 1]);
      assert Held(front, have) + [] == Held(front, have);
      assert Held(front, have + {k}) + [] == Held(front, have + {k});
    }
  }

  lemma {:induction false} HeldFull<F>(all: seq<F>, have: set<nat>)
    requires Full(|all|, have)
    ensures Held(all, have) == all
  {
    if all != [] {
      HeldFull(all[..|all| - 1], have);
    }
  }

  lemma {:induction false} HeldPrefix<F>(all: seq<F>, have: set<nat>, j: nat)
    requires j <= |all| && Full(j, have)
    ensures j <= |Held(all, have)| && Held(all, have)[..j] == all[..j]
  {
    if j == |all| {
      HeldFull(all, have);
    } else {
      var front := all[..|all| - 1];
      HeldPrefix(front, have, j);
      assert Held(all, have)[..j] == Held(front, have)[..j] == front[..j] == all[..j];
    }
  }

  /** Nonempty pieces: the bytes held reach the total exactly when no piece is missing. */
  lemma {:induction false} HeldBytes<F>(body: F -> Bytes, all: seq<F>, have: set<nat>)
    requires forall i :: 0 <= i < |all| ==> body(all[i]) != []
    ensures |JoinBy(body, Held(all, have))| <= |JoinBy(body, all)|
    ensures |JoinBy(body, Held(all, have))| == |JoinBy(body, all)| <==> Full(|all|, have)
  {
    if all != [] {
      var front, last := all[..|all| - 1], all[|all| - 1];
      HeldBytes(body, front, have);
      JoinConcat(body, Held(front, have), [last]);
      assert Held(front, have) + [] == Held(front, have);
      assert JoinBy(body, [last]) == body(last) by {
        assert [last][..0] == [];
      }
      assert Full(|all|, have) <==> Full(|front|, have) && |all| in have;
    }
  }
}
