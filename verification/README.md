# 2D MPI neighbours: the Moore-neighbourhood resolver in Dafny

The repository holds two MPI benchmarks, `Source/stencil.c` and `repo.c`.
Each one lays its workers out on a square `D x D` grid in row-major order.
Every worker exchanges buffers with its up-to-eight Moore neighbours.
Both programs start the same way:

- refuse a worker count that is not a perfect square;
- split the worker's rank into `(x, y) = (rank % D, rank / D)`;
- fill an eight-entry neighbour table in the slot order UL, UM, UR, ML, MR,
  LL, LM, LR.

The split and the table are repeated line for line (Source/stencil.c:34-94
and repo.c:30-90). The refusal differs. `Source/stencil.c` prints a message
and returns `EXIT_FAILURE` (lines 29-32). `repo.c` returns -1 and prints
nothing (lines 27-28). The model keeps the two apart
(`Programs.StencilMain`, `Programs.RepoStatus`).

Each slot holds the rank `(y+dy)*D + (x+dx)`, or the null peer
`MPI_PROC_NULL` when the offset leaves the grid. The code tests, per slot,
only the bounds that slot's offset can cross.

This project models that resolver once, in module `Topology`, as a pure
function of `(rank, D)`. Both programs are instances of it. The model
proves:

- the one-sided tests equal the full two-axis bounds check;
- bounds, distinctness and the absence of row wrap;
- the neighbour counts at corners, on edges and in the interior;
- symmetry (slot `i` of A names B iff slot `7 - i` of B names A);
- that the table holds exactly the geometric neighbours.

Around the resolver it models:

- the buffer initialisation of both programs (`Buffers`);
- the stencil benchmark's validator (`Validator`);
- an idealised exchange round over the whole grid (`Exchange`);
- the two programs' exit statuses, the stencil run loop and the char
  benchmark's post order (`Programs`).

A null peer is `Option.None`. The C encoding, an integer constant outside
the valid ranks, is a parameter `procNull < 0`. It is related to the
`Option` form by `Topology.MpiRoundTrip`.

Modules:

- `Wrappers`: `Option`, `Result`, `Outcome`.
- `Grid`: integer square root, perfect-square check, rank/coordinate
  bijection.
- `Slots`: the eight directions, their offsets and table positions.
- `Topology`: the resolver and its properties.
- `Buffers`: buffer initialisation.
- `Validator`: the receive check.
- `Exchange`: the idealised round.
- `Programs`: exit statuses, the run loop and the post schedule.

Rank 0 of a `3 x 3` grid has MR = 1, LM = 3, LR = 4 and every other slot
null (`Topology.CornerOfNine`, repo.c:41-90).

## Model

| member | source | states |
|---|---|---|
| `Grid.ISqrt` | Source/stencil.c:28 | the linear dimension `d` of a worker count `n` satisfies `d*d <= n < (d+1)*(d+1)`, as truncating the square root does |
| `Grid.ISqrtUnique` | repo.c:26 | any `e` with `e*e <= n < (e+1)*(e+1)` is the computed linear dimension |
| `Grid.LinDim` | Source/stencil.c:28-32 | setup succeeds exactly when the worker count is a perfect square; on success `D*D == size`; on failure the error names the count |
| `Grid.CoordOf` | Source/stencil.c:42-43 | for `rank < D*D`, `x = rank % D` and `y = rank / D` lie in `[0, D)` and `y*D + x == rank` |
| `Grid.CoordRoundTrip` | repo.c:38-39 | every in-grid cell has a rank in `[0, D*D)`, and splitting that rank gives the cell back |
| `Grid.RankInjective` | repo.c:38-39 | two in-grid cells with the same rank are the same cell |
| `Slots.SlotAt` | Source/stencil.c:86-94 | the slot stored at table position `i` is the one whose position is `i` (position and slot are inverse) |
| `Slots.OffsetsDistinct` | Source/stencil.c:46-84 | every slot's offset is non-zero in `{-1,0,1}^2`, and distinct slots have distinct offsets |
| `Slots.FromOffset` | Source/stencil.c:46-84 | every non-zero offset in `{-1,0,1}^2` is the offset of some slot |
| `Slots.Opposite` | Source/stencil.c:86-94 | the opposite direction negates both offsets and sits at table position `7 - i` |
| `Topology.Neighbor` | Source/stencil.c:46-84 | the slot value computed with that slot's one-sided guard equals the two-axis reference: the offset cell's rank iff it lies inside the grid on both axes, else the null peer |
| `Topology.Neighbors` | repo.c:41-90 | the table has eight entries, and entry `i` is the two-axis reference neighbour in direction `SlotAt(i)` of the rank's cell |
| `Topology.Resolve` | Source/stencil.c:27-94 | from `(rank, size)`: fails exactly when `size` is not a perfect square, with that error; otherwise returns the table over the grid of side `isqrt(size)` |
| `Topology.TableBounds` | Source/stencil.c:46-94 | every present entry is a rank in `[0, D*D)`, differs from the owner, and is the cell at the slot's offset |
| `Topology.NeighborBounds` | repo.c:41-90 | the same bounds stated for a rank: present neighbours are workers other than the owner, at the slot's offset |
| `Topology.NeighborsDistinct` | Source/stencil.c:86-94 | the present entries of a table are pairwise distinct |
| `Topology.NoRowWrap` | Source/stencil.c:56-84 | in the left column UL, ML, LL are null; in the right column UR, MR, LR; in the top row UL, UM, UR; in the bottom row LL, LM, LR |
| `Topology.LinearCheckWouldWrap` | Source/stencil.c:66-69 | at the right-hand column of any row but the last, `y*D + x+1` is a valid rank but the first cell of the next row, and the MR slot is still null |
| `Topology.RowCounts` | Source/stencil.c:46-84 | the number of present entries is `Span(x)` for each existing row above and below plus `Span(x) - 1` for the owner's row |
| `Topology.NeighborCount` | Source/stencil.c:46-84 | the number of present entries is the number of in-grid cells of the 3x3 block around the owner, minus one |
| `Topology.CornerEdgeInteriorCounts` | Source/stencil.c:46-94 | with `D >= 2`: 3 present neighbours at a corner, 5 on an edge, 8 in the interior; with `D == 1`: none |
| `Topology.Symmetry` | Source/stencil.c:86-94 | if slot `i` of A holds B, then B is a worker, slot `7 - i` of B holds A, and slot `7 - i` is the opposite direction of slot `i` |
| `Topology.Adjacency` | Source/stencil.c:46-94 | B appears in A's table iff B's cell is a Moore neighbour of A's cell |
| `Topology.SlotRank` | Source/stencil.c:46-48 | the rank at a slot's offset is the owner's rank plus `dy*D + dx` |
| `Topology.InteriorTable` | Source/stencil.c:46-94 | an interior cell of rank `r` has the table `r-D-1, r-D, r-D+1, r-1, r+1, r+D-1, r+D, r+D+1` |
| `Topology.UpperLeftTable` | Source/stencil.c:46-94 | with `D >= 2`, the upper-left cell has only MR = 1, LM = D and LR = D+1 |
| `Topology.CentreOfNine` | repo.c:6-15 | in a 3x3 grid, rank 4 gets `[0, 1, 2, 3, 5, 6, 7, 8]` |
| `Topology.CornerOfNine` | repo.c:41-90 | in a 3x3 grid, rank 0 gets only MR = 1, LM = 3 and LR = 4 |
| `Topology.LoneTable` | Source/stencil.c:46-84 | the only cell of a 1x1 grid has all eight slots null |
| `Topology.SingleWorker` | Source/stencil.c:27-94 | a run with one worker succeeds and gives an all-null table |
| `Topology.EightIsRejected` | Source/stencil.c:28-32 | eight workers are refused as not a perfect square |
| `Topology.MpiRoundTrip` | Source/stencil.c:149 | with a negative null-peer constant the integer encoding of a table decodes back to it, and an entry equals the constant iff the slot is null |
| `Buffers.Filled` | Source/stencil.c:103-110 | eight buffers of `count` elements, each element the given value |
| `Buffers.UniformUnique` | Source/stencil.c:103-110 | a set of uniformly filled buffers is determined by its value and length |
| `Buffers.InitBuffers` | Source/stencil.c:103-110 | after the nested initialisation loops, all eight send buffers hold `count` copies of the send value and all eight receive buffers `count` copies of the receive value |
| `Buffers.StencilBuffers` | Source/stencil.c:100-110 | stencil buffers: 1000 elements each, every send element the owner's rank, every receive element -1 |
| `Buffers.RepoBuffers` | repo.c:95-105 | char-benchmark buffers: one element each, every send element 8, every receive element 1 |
| `Validator.Validate` | Source/stencil.c:148-157 | the loop passes iff every element of every non-null slot's receive buffer equals the slot's rank; a failure reports a mismatch in a non-null slot, and every slot and element scanned before it matched |
| `Validator.ValidateTable` | Source/stencil.c:148-157 | on a resolved table in its C encoding, the validator passes iff the table is valid |
| `Validator.NullSlotsIgnored` | Source/stencil.c:149 | the verdict does not depend on the receive buffers of null slots |
| `Validator.SentinelNeverValidates` | Source/stencil.c:108 | untouched sentinel receive buffers validate iff the buffers are empty or every slot is null |
| `Exchange.SlotOf` | Source/stencil.c:133-134 | the first slot naming a peer: it names the peer and no earlier slot does; there is none iff the peer is absent from the table |
| `Exchange.SlotOfUnique` | Source/stencil.c:125-126 | when only slot `k` names a peer, that peer's matching slot is `k` |
| `Exchange.MatchingSlot` | Source/stencil.c:125-138 | the peer B in slot `i` of A sends to A from slot `7 - i`, the only slot of B that names A |
| `Exchange.Round` | Source/stencil.c:122-141 | a round keeps every worker's table and send buffers and the number of its receive buffers |
| `Exchange.RoundReceives` | Source/stencil.c:125-141 | after a round, a slot with peer B holds B's send buffer `7 - i`, and a null slot keeps its receive buffer |
| `Exchange.RoundWellFormed` | Source/stencil.c:122-141 | a round keeps a grid world well formed |
| `Exchange.RoundIdempotent` | Source/stencil.c:122-158 | repeating a round changes nothing |
| `Exchange.RoundsCollapse` | Source/stencil.c:122 | any positive number of rounds has the effect of one |
| `Exchange.ValidAfterRound` | Source/stencil.c:146-157 | when every worker sends its own rank, the validator's condition holds on every worker after a round |
| `Exchange.ValidAfterRounds` | Source/stencil.c:122-158 | the same after any positive number of rounds |
| `Exchange.NullSlotsKeepSentinel` | Source/stencil.c:108 | a null slot still holds the -1 sentinel after a round |
| `Exchange.RepoRoundReceivesEight` | repo.c:118-128 | in the char benchmark, after a round every present slot holds `[8]` and every null slot still `[1]` |
| `Programs.RepoStatus` | repo.c:26-28 | the char benchmark returns -1 exactly when the worker count is not a perfect square, and 0 otherwise |
| `Programs.InitialWorld` | Source/stencil.c:86-110 | the initial world is well formed, every worker sends its own rank, and every receive buffer holds the sentinel |
| `Programs.StencilRun` | Source/stencil.c:122-158 | the run ends with status 0 or `EXIT_FAILURE`; it ends with 0 whenever every worker sends its own rank; status 0 means all rounds ran |
| `Programs.StencilMain` | Source/stencil.c:27-32 | the stencil benchmark fails with `EXIT_FAILURE` exactly when the worker count is not a perfect square, and otherwise completes with status 0 |
| `Programs.RoundPosts` | repo.c:121-125 | one round is the receive on every slot in slot order, then the send on every slot, all with the round's tag, each to the slot's peer |
| `Programs.Schedule` | repo.c:118-125 | post `k` belongs to round `tag < rounds` and sits at offset `k - 16*tag` of that round's block: a receive in the first half, a send in the second, to its slot's peer |
| `Programs.ScheduleRound` | repo.c:121-125 | round `j` posts `Irecv` on slot `m` at position `16j + m` and `Isend` on slot `m` at `16j + 8 + m`, all tagged `j` |
| `Programs.ScheduleOrder` | repo.c:118-125 | tags never decrease, and within one tag no receive follows a send |
| `Programs.RepoTags` | repo.c:118 | every tag of the char benchmark lies in `[0, 10000)` |

## Left out

- MPI runtime calls are not modelled: `MPI_Init`, `MPI_Finalize`, `MPI_Comm_size`, `MPI_Comm_rank`, `MPI_Barrier`, and the nonblocking `MPI_Irecv`/`MPI_Isend`/`MPI_Waitall`. A round is modelled as the idealised copy in `Exchange`. Message matching is modelled only as "the peer sends from the slot naming the receiver".
- Worker count and rank are inputs. The model assumes `rank < size`, which the runtime guarantees.
- Timing (`MPI_Wtime`) and the rank-0 `printf` report are wall-clock and output.
- `lin_dim = sqrt(size)` in floating point is modelled as the integer square root `Grid.ISqrt`. For every count a 32-bit `int` holds, the double square root truncates to that value.
- C `int` width is not modelled. Every intermediate (`n_y*lin_dim + n_x`, at most `D*D + D`) fits a 32-bit `int` for any worker count that does.
- C `%` and `/` truncate toward zero, Dafny's are Euclidean. The operands here are non-negative, so they agree, and `floor` of an integer quotient is that quotient.
- `malloc` is not modelled: its result is never checked.
- The `printf` error paths after the MPI calls (Source/stencil.c:127-144) only print and continue.
- The message tag in Source/stencil.c:126,134 is not modelled. It is the variable `j`, left over from the initialisation and validation loops, not the round counter `k`. The stencil run loop is modelled without tags.
- The unused `sum` and the comment about sums of ranks (Source/stencil.c:146-147) are not modelled. The check is plain equality.
- `EXIT_FAILURE` is taken to be 1, its value in the common C libraries.
- The char buffers of `repo.c` are modelled as integers. Their only values are 8 and 1.
- Programs.StencilRun: its success guarantee assumes every worker sends its own rank, as `Programs.InitialWorld` builds the world. For other worlds only the possible statuses are stated.
- Exchange.Round: delivery is total and in-order. Lost, duplicated or reordered messages are outside the model.
