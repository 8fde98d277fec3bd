/**
 * futils_random_shuffle: a Fisher-Yates shuffle over elements of any size, done by byte copies. The
 * draws are parameters: for position u of n, a number from 0 to n - 1 - u.
 */
module Shuffle {
  import opened Bytes
  import opened Common

  ghost predicate Choices(n: nat, draws: seq<nat>) {
    && |draws| == (if n == 0 then 0 else n - 1)
    && forall u :: 0 <= u < |draws| ==> draws[u] <= n - 1 - u
  }

  function Swapped<T>(s: seq<T>, u: nat, v: nat): seq<T>
    requires u < |s| && v < |s|
  {
    s[u := s[v]][v := s[u]]
  }

  /** The elements after the first `u` turns of the loop. */
  ghost function Turns<T>(s: seq<T>, draws: seq<nat>, u: nat): (r: seq<T>)
    requires Choices(|s|, draws) && u <= |draws|
    ensures |r| == |s|
  {
    if u == 0 then s
    else
      var t := Turns(s, draws, u - 1);
      Swapped(t, u - 1, u - 1 + draws[u - 1])
  }

  ghost function Shuffled<T>(s: seq<T>, draws: seq<nat>): (r: seq<T>)
    requires Choices(|s|, draws)
    ensures |r| == |s|
  {
    Turns(s, draws, |draws|)
  }

  // ----- the byte level

  ghost function Block(b: seq<byte>, size: nat, i: nat): seq<byte>
    requires i * size <= (i + 1) * size <= |b|
  {
    b[i * size..(i + 1) * size]
  }

  lemma {:induction false} MulGrows(a: nat, b: nat, size: nat)
    requires a <= b
    ensures a * size <= b * size
    decreases b
  {
    if a < b {
      MulGrows(a, b - 1, size);
      assert b * size == (b - 1) * size + size;
    }
  }

  lemma InOrder(i: nat, j: nat, size: nat)
    ensures i * size <= (i + 1) * size == i * size + size
    ensures i < j ==> (i + 1) * size <= j * size
  {
    if i < j {
      MulGrows(i + 1, j, size);
    }
  }

  /** The array read as `n` elements of `size` bytes. */
  ghost function Elements(b: seq<byte>, size: nat, n: nat): (e: seq<seq<byte>>)
    requires n * size == |b|
    ensures |e| == n
  {
    seq(n, i requires 0 <= i < n => InOrder(i, n, size); Block(b, size, i))
  }

  /** Overwriting the bytes of one element replaces that element and no other. */
  lemma WriteElement(b: seq<byte>, b': seq<byte>, size: nat, n: nat, k: nat, data: seq<byte>)
    requires n * size == |b| && k < n && |data| == size
    requires k * size + size <= |b| && b' == b[..k * size] + data + b[k * size + size..]
    ensures |b'| == |b| && Elements(b', size, n) == Elements(b, size, n)[k := data]
  {
    var e := Elements(b, size, n)[k := data];
    forall i | 0 <= i < n
      ensures Elements(b', size, n)[i] == e[i]
    {
      InOrder(i, n, size);
      InOrder(i, k, size);
      InOrder(k, i, size);
      if i != k {
        assert Block(b', size, i) == Block(b, size, i);
      }
    }
  }

  lemma ElementAt(b: seq<byte>, size: nat, n: nat, i: nat)
    requires n * size == |b| && i < n
    ensures i * size + size <= |b| && b[i * size..i * size + size] == Elements(b, size, n)[i]
  {
    InOrder(i, n, size);
  }

  method SwapElements(base: array<byte>, size: nat, n: nat, u: nat, v: nat)
    requires n * size == base.Length && u < n && v < n
    modifies base
    ensures Elements(base[..], size, n) == Swapped(Elements(old(base[..]), size, n), u, v)
  {
    hide Elements;
    ElementAt(base[..], size, n, u);
    ElementAt(base[..], size, n, v);
    var pu, pv := u * size, v * size;
    var tmp := base[pu..pu + size];
    ghost var b0 := base[..];
    Memcpy(base, pu, base[pv..pv + size]);
    ghost var b1 := base[..];
    WriteElement(b0, b1, size, n, u, b0[pv..pv + size]);
    Memcpy(base, pv, tmp);
    WriteElement(b1, base[..], size, n, v, tmp);
  }

  /** futils_random_shuffle for a non-null base, with the draws of the random pool. */
  method ShuffleInPlace(base: array<byte>, nmemb: nat, size: nat, draws: seq<nat>) returns (ret: int)
    requires nmemb * size == base.Length && Choices(nmemb, draws)
    modifies base
    ensures ret == 0
    ensures Elements(base[..], size, nmemb) == Shuffled(Elements(old(base[..]), size, nmemb), draws)
  {
    ret := 0;
    if nmemb < 2 {
      return;
    }
    if size == 0 {
      NoBytes(base[..], nmemb, draws, |draws|);
      return;
    }
    for u := 0 to nmemb - 1
      invariant Elements(base[..], size, nmemb) == Turns(Elements(old(base[..]), size, nmemb), draws, u)
    {
      var r := draws[u];
      if r == 0 {
        continue;
      }
      SwapElements(base, size, nmemb, u, u + r);
    }
  }

  lemma {:induction false} NoBytes(b: seq<byte>, n: nat, draws: seq<nat>, u: nat)
    requires |b| == 0 && Choices(n, draws) && u <= |draws|
    ensures Turns(Elements(b, 0, n), draws, u) == Elements(b, 0, n)
  {
    if u > 0 {
      NoBytes(b, n, draws, u - 1);
      assert forall i :: 0 <= i < n ==> Elements(b, 0, n)[i] == [];
    }
  }

  // ----- the shuffle from its first position on

  /** The same shuffle, read as choosing the first element and then shuffling the rest. */
  ghost function Draw<T>(s: seq<T>, draws: seq<nat>): (r: seq<T>)
    requires Choices(|s|, draws)
    ensures |r| == |s|
    decreases |s|
  {
    if |s| < 2 then s
    else
      var t := Swapped(s, 0, draws[0]);
      [t[0]] + Draw(t[1..], draws[1..])
  }

  /** The loop from position u on works on the elements from u on as a shuffle of their own. */
  lemma {:induction false} TurnsFromFirst<T>(s: seq<T>, draws: seq<nat>, u: nat)
    requires Choices(|s|, draws) && 1 <= u <= |draws|
    ensures var t := Swapped(s, 0, draws[0]);
            Turns(s, draws, u) == [t[0]] + Turns(t[1..], draws[1..], u - 1)
    decreases u
  {
    var t := Swapped(s, 0, draws[0]);
    if u == 1 {
      assert Turns(s, draws, 0) == s;
      assert t == [t[0]] + t[1..];
    } else {
      TurnsFromFirst(s, draws, u - 1);
      assert draws[1..][u - 2] == draws[u - 1];
    }
  }

  lemma {:induction false} ShuffledIsDraw<T>(s: seq<T>, draws: seq<nat>)
    requires Choices(|s|, draws)
    ensures Shuffled(s, draws) == Draw(s, draws)
    decreases |s|
  {
    if |s| >= 2 {
      TurnsFromFirst(s, draws, |draws|);
      ShuffledIsDraw(Swapped(s, 0, draws[0])[1..], draws[1..]);
    }
  }

  lemma SwapPermutes<T>(s: seq<T>, v: nat)
    requires v < |s|
    ensures multiset(Swapped(s, 0, v)) == multiset(s)
    ensures multiset(Swapped(s, 0, v)[1..]) == multiset(s) - multiset{s[v]}
  {
    var t := Swapped(s, 0, v);
    assert t == [t[0]] + t[1..];
  }

  lemma HeadAndTail<T>(s: seq<T>)
    requires s != []
    ensures multiset(s) == multiset{s[0]} + multiset(s[1..])
  {
    assert s == [s[0]] + s[1..];
  }

  /** Every outcome is a permutation of the input. */
  lemma {:induction false} ShufflePermutes<T>(s: seq<T>, draws: seq<nat>)
    requires Choices(|s|, draws)
    ensures multiset(Shuffled(s, draws)) == multiset(s)
    decreases |s|
  {
    ShuffledIsDraw(s, draws);
    if |s| >= 2 {
      var t := Swapped(s, 0, draws[0]);
      SwapPermutes(s, draws[0]);
      ShuffledIsDraw(t[1..], draws[1..]);
      ShufflePermutes(t[1..], draws[1..]);
      HeadAndTail(t);
      HeadAndTail(Draw(s, draws));
      assert Draw(s, draws)[1..] == Draw(t[1..], draws[1..]);
    }
  }

  /** Draw r at position u exchanges the elements at u and u + r. */
  lemma KnownShuffle()
    ensures Shuffled(['a', 'b', 'c', 'd'], [1, 2, 0]) == ['b', 'd', 'c', 'a']
  {
    var s := ['a', 'b', 'c', 'd'];
    assert Turns(s, [1, 2, 0], 0) == s;
    assert Turns(s, [1, 2, 0], 1) == ['b', 'a', 'c', 'd'];
    assert Turns(s, [1, 2, 0], 2) == ['b', 'd', 'c', 'a'];
    assert Turns(s, [1, 2, 0], 3) == ['b', 'd', 'c', 'a'];
  }

  /** Different draws give different orders of distinct elements. */
  lemma {:induction false} DrawsAreUnique<T>(s: seq<T>, a: seq<nat>, b: seq<nat>)
    requires Choices(|s|, a) && Choices(|s|, b) && Distinct(s)
    requires Shuffled(s, a) == Shuffled(s, b)
    ensures a == b
    decreases |s|
  {
    ShuffledIsDraw(s, a);
    ShuffledIsDraw(s, b);
    if |s| >= 2 {
      assert Draw(s, a)[0] == s[a[0]] && Draw(s, b)[0] == s[b[0]];
      assert a[0] == b[0];
      var t := Swapped(s, 0, a[0]);
      assert Draw(s, a)[1..] == Draw(t[1..], a[1..]) && Draw(s, b)[1..] == Draw(t[1..], b[1..]);
      ShuffledIsDraw(t[1..], a[1..]);
      ShuffledIsDraw(t[1..], b[1..]);
      DrawsAreUnique(t[1..], a[1..], b[1..]);
      assert a == [a[0]] + a[1..] && b == [b[0]] + b[1..];
    }
  }

  lemma DrawThenRest<T>(s: seq<T>, v: nat, rest: seq<nat>)
    requires |s| >= 2 && v < |s| && Choices(|s| - 1, rest)
    ensures Choices(|s|, [v] + rest)
    ensures Shuffled(s, [v] + rest) == [s[v]] + Shuffled(Swapped(s, 0, v)[1..], rest)
  {
    var draws := [v] + rest;
    assert draws[1..] == rest;
    ShuffledIsDraw(Swapped(s, 0, v)[1..], rest);
    ShuffledIsDraw(s, draws);
  }

  lemma AfterFirst<T>(s: seq<T>, target: seq<T>, v: nat)
    requires multiset(s) == multiset(target) && target != [] && v < |s| && s[v] == target[0]
    ensures multiset(Swapped(s, 0, v)[1..]) == multiset(target[1..])
    ensures target == [target[0]] + target[1..]
  {
    SwapPermutes(s, v);
    HeadAndTail(target);
  }

  /** Every permutation is the outcome of some draws. */
  lemma {:induction false} EveryOrderIsDrawn<T>(s: seq<T>, target: seq<T>) returns (draws: seq<nat>)
    requires multiset(s) == multiset(target)
    ensures Choices(|s|, draws) && Shuffled(s, draws) == target
    decreases |s|
  {
    assert |s| == |multiset(s)| == |target|;
    if |s| == 0 {
      return [];
    }
    assert target[0] in multiset(s);
    var v: nat :| v < |s| && s[v] == target[0];
    if |s| == 1 {
      return [];
    }
    AfterFirst(s, target, v);
    var rest := EveryOrderIsDrawn(Swapped(s, 0, v)[1..], target[1..]);
    DrawThenRest(s, v, rest);
    draws := [v] + rest;
  }

  /**
   * For distinct elements the draws and the orders correspond one to one: every order is reached,
   * and by exactly one vector of draws.
   */
  lemma ShuffleIsABijection<T(!new)>(s: seq<T>, target: seq<T>)
    requires Distinct(s)
    ensures multiset(target) == multiset(s) <==>
            exists draws :: Choices(|s|, draws) && Shuffled(s, draws) == target
    ensures forall a, b | Choices(|s|, a) && Choices(|s|, b) ::
              Shuffled(s, a) == target && Shuffled(s, b) == target ==> a == b
  {
    if multiset(target) == multiset(s) {
      var draws := EveryOrderIsDrawn(s, target);
    }
    forall draws | Choices(|s|, draws) && Shuffled(s, draws) == target
      ensures multiset(target) == multiset(s)
    {
      ShufflePermutes(s, draws);
    }
    forall a, b | Choices(|s|, a) && Choices(|s|, b) && Shuffled(s, a) == target && Shuffled(s, b) == target
      ensures a == b
    {
      DrawsAreUnique(s, a, b);
    }
  }
}
