/**
  The kernel as the program runs it: one grid thread updating the device
  buffer `c` in place, and the launch of every thread of the work division,
  modelled as a loop running the threads one after another in index order.
 */
module Kernel {
  import opened WorkDivision
  import opened KernelSpec

  /** The body of the kernel for grid thread `t` owning `e` elements:
      `c[i] := c[i] + b[i]` over its clipped range, nothing when its first
      element is at or past `n`. `a` is passed but never read. The buffers
      may alias; the result is stated on the values they held on entry. */
  method KernelThread(a: array<int>, b: array<int>, c: array<int>, n: nat, t: nat, e: nat)
    requires n <= b.Length && n <= c.Length
    modifies c
    ensures c[..] == ThreadUpdate(old(c[..]), old(b[..]), n, t, e)
    ensures a != c ==> a[..] == old(a[..])
    ensures b != c ==> b[..] == old(b[..])
  {
    var first := t * e;
    if first < n {
      var last := first + e;
      var lastClipped := if n > last then last else n;
      var i := first;
      while i < lastClipped
        invariant first <= i <= lastClipped
        invariant forall j :: 0 <= j < c.Length ==>
                    c[j] == if first <= j < i then old(c[j]) + old(b[j]) else old(c[j])
        invariant forall j :: i <= j < b.Length ==> b[j] == old(b[j])
      {
        c[i] := c[i] + b[i];
        i := i + 1;
      }
    }
  }

  /** The launch of the program for `n` elements and `g` threads per block:
      every grid thread of the work division, in increasing index order.
      Afterwards `c[i] == old(c[i]) + old(b[i])` below `n` and `c` is
      unchanged from `n` on. */
  method LaunchGrid(a: array<int>, b: array<int>, c: array<int>, n: nat, g: nat)
    requires g > 0
    requires n <= b.Length && n <= c.Length
    modifies c
    ensures c[..] == GridLaunch(old(c[..]), old(b[..]), n, g)
    ensures forall i :: 0 <= i < n ==> c[i] == old(c[i]) + old(b[i])
    ensures forall i :: n <= i < c.Length ==> c[i] == old(c[i])
    ensures a != c ==> a[..] == old(a[..])
    ensures b != c ==> b[..] == old(b[..])
  {
    var wd := MakeWorkDiv(n, g);
    var total := GridThreadCount(wd);
    ghost var c0, b0 := c[..], b[..];
    var t := 0;
    while t < total
      invariant 0 <= t <= total
      invariant c[..] == ApplyThreads(c0, b0, n, 1, Threads(t))
      invariant a != c ==> a[..] == old(a[..])
      invariant b != c ==> b[..] == b0
    {
      ghost var before, bBefore := c[..], b[..];
      KernelThread(a, b, c, n, t, wd.elemsPerThread);
      NextThread(c0, b0, n, t, before, bBefore);
      t := t + 1;
    }
    GridLaunchIsAddPrefix(c0, b0, n, g);
  }

  /** One more step of the serial launch: thread `t` run on the state left
      by threads 0 .. t-1 extends the launch to threads 0 .. t. The second
      addend it sees is either the original `b` or, when `b` and `c` are the
      same buffer, the current `c`, which still holds `b`'s value at `t`. */
  lemma NextThread(c0: seq<int>, b0: seq<int>, n: nat, t: nat, cur: seq<int>, bCur: seq<int>)
    requires n <= |c0| && n <= |b0|
    requires cur == ApplyThreads(c0, b0, n, 1, Threads(t))
    requires bCur == b0 || (bCur == cur && c0 == b0)
    ensures ThreadUpdate(cur, bCur, n, t, 1) == ApplyThreads(c0, b0, n, 1, Threads(t + 1))
  {
    if bCur != b0 && t < n {
      ApplyThreadsAt(c0, b0, n, 1, Threads(t), t);
      ThreadsHits(t, t, n, 1);
    }
    forall i | InThreadRange(i, n, t, 1) ensures bCur[i] == b0[i] {
      ThreadRangeIff(i, n, t, 1);
    }
    ThreadReadsOwnRange(cur, bCur, b0, n, t, 1);
    assert Threads(t + 1)[..t] == Threads(t);
  }
}
