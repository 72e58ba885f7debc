/** An optional value: a slot pointer that may be `nullptr`, a `bool` success
    flag paired with an out-parameter. */
module Wrappers {
  datatype Option<+T> = None | Some(value: T)
}

/** Circular views of a slot array, shared by both ring buffers: the `n`
    slots that start at cursor `start` and wrap around the end. */
module Ring {
  import opened Bits

  lemma ModAddMod(a: nat, i: nat, m: nat)
    requires m >= 1
    ensures (a % m + i) % m == (a + i) % m
  {
    var q, r := a / m, a % m;
    var q', r' := (r + i) / m, (r + i) % m;
    assert a + i == m * (q + q') + r';
    ModOfDecomposition(a + i, m, q + q', r');
  }

  lemma ModCongruentAdd(a: nat, b: nat, k: nat, m: nat)
    requires m >= 1 && a % m == b % m
    ensures (a + k) % m == (b + k) % m
  {
    ModAddMod(a, k, m);
    ModAddMod(b, k, m);
  }

  lemma ModBelow(x: nat, size: nat)
    requires size >= 1
    ensures x < size ==> x % size == x
  {
    if x < size {
      ModOfDecomposition(x, size, 0, x);
    }
  }

  /** Stepping back `d` from a multiple of `m` lands `m - d` past a multiple. */
  lemma ModWrapBack(big: nat, m: nat, d: nat)
    requires 1 <= m <= big && big % m == 0 && 0 < d <= m
    ensures (big - d) % m == m - d
  {
    var k := big / m;
    assert big == m * k;
    MulAtLeast(m, k);
    assert m * (k - 1) == m * k - m;
    if d == m {
      ModOfDecomposition(big - d, m, k - 1, 0);
    } else {
      ModOfDecomposition(big - d, m, k - 1, m - d);
    }
  }

  /** Cursors fewer than `m` apart address different slots. */
  lemma ModDistinct(a: nat, d: nat, m: nat)
    requires 0 < d < m
    ensures (a + d) % m != a % m
  {
    var q, r := a / m, a % m;
    if r + d < m {
      ModOfDecomposition(a + d, m, q, r + d);
    } else {
      assert a + d == m * (q + 1) + (r + d - m);
      ModOfDecomposition(a + d, m, q + 1, r + d - m);
    }
  }

  /** The slots at cursors start, start + 1, ..., start + n - 1. */
  function Window<T>(slots: seq<T>, start: nat, n: nat): (w: seq<T>)
    requires |slots| > 0
  {
    seq(n, i requires 0 <= i < n => slots[(start + i) % |slots|])
  }

  /** Writing the slot just past a window that is not yet a full lap appends. */
  lemma WindowPush<T>(slots: seq<T>, start: nat, n: nat, v: T)
    requires n < |slots|
    ensures Window(slots[(start + n) % |slots| := v], start, n + 1) == Window(slots, start, n) + [v]
  {
    var m := |slots|;
    var p := (start + n) % m;
    var w, w' := Window(slots, start, n), Window(slots[p := v], start, n + 1);
    forall i | 0 <= i < n ensures w'[i] == w[i] {
      ModDistinct(start + i, n - i, m);
    }
    assert w' == w + [v];
  }

  /** Advancing the start by one drops the first element. */
  lemma WindowPop<T>(slots: seq<T>, start: nat, n: nat)
    requires |slots| > 0 && n >= 1
    ensures Window(slots, start + 1, n - 1) == Window(slots, start, n)[1..]
  {
    var w, w' := Window(slots, start, n), Window(slots, start + 1, n - 1);
    forall i | 0 <= i < n - 1 ensures w'[i] == w[1..][i] {
      assert start + 1 + i == start + (i + 1);
    }
  }

  /** Only the start's residue matters. */
  lemma WindowMod<T>(slots: seq<T>, start: nat, n: nat)
    requires |slots| > 0
    ensures Window(slots, start % |slots|, n) == Window(slots, start, n)
  {
    forall i | 0 <= i < n
      ensures Window(slots, start % |slots|, n)[i] == Window(slots, start, n)[i]
    {
      ModAddMod(start, i, |slots|);
    }
  }

  /** `slots` after writing `xs[0]`, `xs[1]`, ... at cursors start, start + 1,
      ...; on more than a lap the later writes win. */
  function WriteRun<T>(slots: seq<T>, start: nat, xs: seq<T>): (r: seq<T>)
    requires |slots| > 0
    ensures |r| == |slots|
  {
    if xs == [] then slots
    else WriteRun(slots, start, xs[..|xs| - 1])[(start + |xs| - 1) % |slots| := xs[|xs| - 1]]
  }

  /** Writing one more element of the run updates one more slot. */
  lemma WriteRunStep<T>(slots: seq<T>, start: nat, xs: seq<T>, i: nat)
    requires |slots| > 0 && i < |xs|
    ensures WriteRun(slots, start, xs[..i + 1]) == WriteRun(slots, start, xs[..i])[(start + i) % |slots| := xs[i]]
  {
    assert xs[..i + 1][..i] == xs[..i];
  }

  /** A run written just past a window, that together with it stays within a
      lap, extends the window by the run, in write order. */
  lemma {:induction false} WriteRunAppend<T>(slots: seq<T>, start: nat, head: nat, n: nat, xs: seq<T>)
    requires 0 < |slots| && n + |xs| <= |slots|
    requires start % |slots| == (head + n) % |slots|
    ensures Window(WriteRun(slots, start, xs), head, n + |xs|) == Window(slots, head, n) + xs
  {
    if xs != [] {
      var m := |slots|;
      var init, last := xs[..|xs| - 1], xs[|xs| - 1];
      WriteRunAppend(slots, start, head, n, init);
      var k := |init|;
      ModCongruentAdd(start, head + n, k, m);
      assert head + n + k == head + (n + k);
      assert WriteRun(slots, start, xs) == WriteRun(slots, start, init)[(start + k) % m := last];
      WindowPush(WriteRun(slots, start, init), head, n + k, last);
      assert init + [last] == xs;
    }
  }

  function Min(a: nat, b: nat): nat
  {
    if a <= b then a else b
  }
}
