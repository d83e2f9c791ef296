/**
  The host-side work division of the vector-addition program: how many blocks
  of `g` threads, each thread handling one element, are launched for a vector
  of `n` elements.
 */
module WorkDivision {

  /** The block count `n / g + (n % g != 0)`, that is, ceil(n / g).
      For n >= 0 and g > 0 the truncating division and remainder of C++
      coincide with Dafny's Euclidean ones. */
  function NBlocks(n: nat, g: nat): (r: nat)
    requires g > 0
    ensures r * g >= n
    ensures n > 0 ==> (r - 1) * g < n
    ensures n == 0 ==> r == 0
  {
    var q, m := n / g, n % g;
    assert n == q * g + m && 0 <= m < g;
    q + (if m != 0 then 1 else 0)
  }

  /** No smaller number of blocks of `g` threads covers `n` elements. */
  lemma NBlocksIsLeast(n: nat, g: nat, r: nat)
    requires g > 0
    requires r * g >= n
    ensures NBlocks(n, g) <= r
  {
  }

  /** Multiplying by a non-negative factor keeps the order. */
  lemma MulMonotone(x: int, y: int, g: nat)
    requires x <= y
    ensures x * g <= y * g
  {
  }

  /** The work division handed to the kernel launch: blocks per grid,
      threads per block, elements per thread. */
  datatype WorkDiv = WorkDiv(blocksPerGrid: nat, threadsPerBlock: nat, elemsPerThread: nat)

  /** Number of threads in the whole grid. */
  function GridThreadCount(wd: WorkDiv): nat
  {
    wd.blocksPerGrid * wd.threadsPerBlock
  }

  /** The work division built from vector size `n` and threads per block `g`:
      one element per thread, `g` threads per block, ceil(n / g) blocks. */
  function MakeWorkDiv(n: nat, g: nat): (wd: WorkDiv)
    requires g > 0
    ensures wd.threadsPerBlock == g && wd.elemsPerThread == 1
    ensures GridThreadCount(wd) * wd.elemsPerThread >= n
    ensures n > 0 ==> GridThreadCount(wd) - g < n
    ensures n == 0 ==> GridThreadCount(wd) == 0
  {
    var r := NBlocks(n, g);
    assert r * g - g == (r - 1) * g;
    WorkDiv(r, g, 1)
  }
}
