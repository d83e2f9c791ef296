# Vector addition kernel: work division and kernel body

This project models the computational core of the Alpaka vector-addition
demo `vectorAdditionAlpaka/src/vector_addition.cpp`:

- the **work division** of `main`: for a vector of `n` elements and `g`
  threads per block the program launches `n / g + (n % g != 0)` blocks
  (ceil(n / g)), `g` threads per block and one element per thread
  (module `WorkDivision`, `work_division.dfy`);
- the **kernel body** `vector_addition_kernel::operator()`: grid thread `t`
  with `e` elements per thread starts at `t * e`, does nothing when that is at
  or past the vector size, otherwise clips its end to `min(t * e + e, n)` and
  updates `c[i] = c[i] + b[i]` in place over its range (module `Kernel`,
  `kernel.dfy`, method `KernelThread`);
- the **launch**: every thread of the work division's grid, `ceil(n / g) * g`
  threads, run one after the other in increasing index order (method
  `Kernel.LaunchGrid`). The serial order is a modelling choice, not a claim
  about how the accelerator schedules threads: `ThreadRangesDisjoint` and
  `OrderIndependent` show that no order of the same threads gives a
  different `c`.

The value-level meaning of one thread (`ThreadUpdate`), of a sequence of
threads run in order (`ApplyThreads`) and of the whole launch (`GridLaunch`,
over the thread indices `Threads(k)`) is in module `KernelSpec`
(`kernel_spec.dfy`), with `AddPrefix` (`c[i] + b[i]` below `n`) as the
reference result. The methods are proved against these functions, and
these properties are proved about them: ceil-division, the exact ownership
of each index (`i` belongs to thread `i / e` only), disjointness of thread ranges, order independence of the serial launch,
exact once-only coverage of `[0, n)`, and non-idempotence of the launch.

The model follows the code, not the header comment. The comment says the
program computes `c = a + b`; the kernel reads `c` and `b` and never `a`, so
it computes `c := c + b`. The model keeps `a` as an unused, read-only
parameter, and `GridLaunchIsSumIff` states the consequence: the launch leaves
`a + b` in `c` exactly when `c` already held `a`. The device buffer `c` is
never filled from the zeroed host buffer (only `a` and `b` are copied to the
device), so the initial contents of `c` are an arbitrary input of the model;
`GridLaunchFromZero` states what happens when they happen to be zero.

The kernel's pointers may alias: `KernelThread` states its result in terms
of the values `b` and `c` held on entry, and `LaunchGrid` also covers the case
`b == c`.

## Model

| member | source | states |
|---|---|---|
| `WorkDivision.NBlocks` | vectorAdditionAlpaka/src/vector_addition.cpp:88 | the block count is ceil(n / g): `r * g >= n`, `(r - 1) * g < n` when `n > 0`, and `r == 0` when `n == 0` |
| `WorkDivision.NBlocksIsLeast` | vectorAdditionAlpaka/src/vector_addition.cpp:88 | no smaller block count covers `n` elements with `g` threads per block |
| `WorkDivision.MakeWorkDiv` | vectorAdditionAlpaka/src/vector_addition.cpp:88-97 | one element per thread, `g` threads per block; the grid's threads cover all `n` elements and the last block still has work |
| `KernelSpec.FirstElemIdx` | vectorAdditionAlpaka/src/vector_addition.cpp:37 | a thread's first index `t * e` is a multiple of `e` whose quotient by `e` is `t` |
| `KernelSpec.LastElemIdxClipped` | vectorAdditionAlpaka/src/vector_addition.cpp:41-42 | a thread's end index is `min(first + e, n)`: never past `n` |
| `KernelSpec.InThreadRange` | vectorAdditionAlpaka/src/vector_addition.cpp:39-44 | an index a thread updates lies below `n` and in `[t*e, t*e + e)`; the converse, ownership by `i / e`, is `ThreadRangeIff` |
| `KernelSpec.ThreadUpdate` | vectorAdditionAlpaka/src/vector_addition.cpp:44-47 | its own contract states only that the length of `c` is kept; its meaning is given by `ThreadEffect`, `ThreadSkipped` and `ThreadReadsOwnRange`, and `Kernel.KernelThread` is proved equal to it |
| `KernelSpec.ApplyThreads` | vectorAdditionAlpaka/src/vector_addition.cpp:134-143 | its own contract states only that the length of `c` is kept; its meaning is given by `ApplyThreadsAt` and `OrderIndependent` |
| `KernelSpec.GridLaunch` | vectorAdditionAlpaka/src/vector_addition.cpp:88-143 | its own contract states only that the length of `c` is kept; its meaning is given by `GridLaunchIsAddPrefix`, and `Kernel.LaunchGrid` is proved equal to it |
| `KernelSpec.ThreadSkipped` | vectorAdditionAlpaka/src/vector_addition.cpp:39 | a thread whose first index is at or past `n` leaves `c` unchanged |
| `KernelSpec.ThreadEffect` | vectorAdditionAlpaka/src/vector_addition.cpp:37-47 | a thread updates only indices in `[t*e, t*e + e)` below `n`; those gain `b[i]`, all others keep their value |
| `KernelSpec.ThreadReadsOwnRange` | vectorAdditionAlpaka/src/vector_addition.cpp:44-47 | a thread's result depends on `b` only inside its own range |
| `KernelSpec.ThreadRangeIff` | vectorAdditionAlpaka/src/vector_addition.cpp:37-42 | with `e > 0`, index `i` is in thread `t`'s range if and only if `0 <= i < n` and `t == i / e` |
| `KernelSpec.ThreadRangesDisjoint` | vectorAdditionAlpaka/src/vector_addition.cpp:37-44 | distinct threads never update the same index |
| `KernelSpec.ApplyThreadsAt` | vectorAdditionAlpaka/src/vector_addition.cpp:44-47 | after threads `ts`, `c[i]` has gained `b[i]` once per thread of `ts` covering `i`; indices from `n` on are untouched |
| `KernelSpec.HitsMultiset` | vectorAdditionAlpaka/src/vector_addition.cpp:37-42 | the number of threads of `ts` covering `i` is the multiplicity of `i / e` in `ts` (zero from `n` on) |
| `KernelSpec.OrderIndependent` | vectorAdditionAlpaka/src/vector_addition.cpp:134-143 | any two orders of the same threads give the same final `c` |
| `KernelSpec.DistinctThreadsHitOnce` | vectorAdditionAlpaka/src/vector_addition.cpp:37-44 | pairwise distinct threads cover each index at most once |
| `KernelSpec.ThreadsHits` | vectorAdditionAlpaka/src/vector_addition.cpp:35-47 | threads `0 .. k-1` cover `i` exactly once when `i < n` and `i / e < k`, otherwise not at all |
| `KernelSpec.ThreadsCoverPrefix` | vectorAdditionAlpaka/src/vector_addition.cpp:35-47 | `k` threads with `k * e >= n` add `b` to `c` exactly on `[0, n)` |
| `KernelSpec.GridLaunchIsAddPrefix` | vectorAdditionAlpaka/src/vector_addition.cpp:88-97 | the program's launch gives `c[i] + b[i]` for every `i < n` and leaves the rest of `c` |
| `KernelSpec.GridLaunchTwice` | vectorAdditionAlpaka/src/vector_addition.cpp:46 | launching twice gives `c[i] + 2 * b[i]` below `n` |
| `KernelSpec.GridLaunchNotIdempotent` | vectorAdditionAlpaka/src/vector_addition.cpp:46 | a second launch changes `c` whenever some `b[i]`, `i < n`, is non-zero |
| `KernelSpec.GridLaunchIsSumIff` | vectorAdditionAlpaka/src/vector_addition.cpp:46 | the launch leaves `a + b` in `c[..n]` if and only if `c[..n]` held `a` before |
| `KernelSpec.GridLaunchFromZero` | vectorAdditionAlpaka/src/vector_addition.cpp:124-125 | from a zeroed `c`, the launch leaves a copy of `b` in `c[..n]` |
| `KernelSpec.GridLaunchExample` | vectorAdditionAlpaka/src/vector_addition.cpp:88 | `n = 5`, `g = 2`: three blocks, and `b = [0,1,2,3,4]` added to zeros gives `[0,1,2,3,4]` |
| `Kernel.KernelThread` | vectorAdditionAlpaka/src/vector_addition.cpp:27-49 | the in-place kernel body computes `ThreadUpdate` of the entry values of `c` and `b`; `a`, and `b` when distinct from `c`, are not written |
| `Kernel.LaunchGrid` | vectorAdditionAlpaka/src/vector_addition.cpp:134-143 | the serial launch leaves `c[i] == old(c[i]) + old(b[i])` for `i < n`, the rest of `c` unchanged, and writes nothing else |
| `Kernel.NextThread` | vectorAdditionAlpaka/src/vector_addition.cpp:134-143 | running thread `t` after threads `0 .. t-1` extends the serial launch by one thread, also when `b` and `c` alias |

## Left out

- Platform, device and stream setup, buffer allocation, and host/device copies (lines 70-85, 99-125, 147): calls into the Alpaka library with no logic of this program; the one consequence kept is that the device `c` starts with arbitrary contents.
- The host loop that fills `a`, `b` and the host `c` (lines 110-114): its values never reach the device `c`, and the model takes `a`, `b`, `c` as arbitrary inputs.
- Parallel execution and scheduling (`alpaka::exec::create`, `enqueue`, lines 134-143): the launch is modelled as a serial loop over all grid thread indices; `ThreadRangesDisjoint` and `OrderIndependent` show that any other order, or a race-free parallel run, leaves the same `c`. Line 72 only names the accelerator type `AccCpuSerial`; how it runs the threads is inside the Alpaka library, which is not part of this model.
- Validation of the work division by the accelerator: as the Alpaka library is documented, `AccCpuSerial` runs blocks one after another and allows only one thread per block, so a work division with `g > 1` threads per block (lines 90-96) exceeds that limit and, by that description, is rejected by the library's work-division check rather than run; the library's code is not part of this model, so this is not verified here. The model does not capture this: for `g > 1` it runs all `ceil(n / g) * g` threads, which is what the work division describes, not what this program does on that accelerator; for `g == 1` the two coincide.
- The grid thread index and element extent that Alpaka hands to a thread (lines 35-36) are parameters `t` and `e` of `KernelThread`.
- Timing with the system clock and floating-point durations (lines 130-131, 149-150, 156-157): clock reads and floating point.
- Argument-count check, `atoi` parsing and console output (lines 54-66, 152-157): I/O.
- Invalid configurations are preconditions, not modelled paths: `g == 0` divides by zero at line 88, and a negative size or thread count is converted to `size_t` (lines 90-91, 100), so `n` and `g` are naturals with `g > 0`.
- Machine integer widths: elements are unbounded integers, so the 32-bit `int` overflow of `c[i] + b[i]` and any `size_t` wrap-around of `t * e` are not modelled.
