# Verification of the QSA HiSparse core

A Dafny model of the algorithms at the centre of the SGLang QSA HiSparse plugin, with proofs of what
they promise. `dafny verify dfyconfig.toml` checks everything.

- **Marlin stripe schedule and cross-CTA reduction** (`StripePlan`, `StripeGroups`, `StripeCta`,
  `StripeReduce`, `StripeLaunch`). A line of K-tiles is cut into equal stripes, one per CTA. The index
  arithmetic of the kernel is proved to compute the true sharing of columns; the spin-lock reduction
  is a state machine over arbitrary interleavings, proved ordered, deadlock free and terminating, and
  joined to what each CTA walks; whole-K mode is proved batch invariant.
- **C4 KV offload** (`C4Layout`, `C4Offload`, `GraphKernels`, `GraphCompact`, `GraphReplay`). Host
  slab, four-row ring, hot buffer and asynchronous copies represent the plain token sequence at all
  times. A copy is a pending step that reads its source when it completes. The flat-offset graph
  kernels are proved equal to the eager path for every grid order.
- **Host prefixes** (`HostPrefix`, `ImageIdentity`, `CaptureRestore`, `StateCapture`, `CaptureBytes`,
  `PrefixCapture`, `PrefixRequest`, `PrefixMatches`, `Rollback`, `Pages`, `Totals`). Bounded cache with
  reservations, pinned readers and epochs; capture, publication, lookup and restore of everything a
  request holds, proved the identity up to pages, ring and slot; ownership of every reader; and a
  rollback that may fail at any call and be retried.
- **Leases and tensor-parallel agreement** (`Slots`, `Coordinator`).
- **Kernels with a simple reference** (`OnlineSoftmax`, `SparseAttention`, `SparseRows`, `StableTopK`,
  `StableAlign`, `PleRows`).

`Division` and `Counting` hold shared arithmetic.

Conventions. Floating point is `real`, with minus infinity and not-a-number where the code can reach
them; `exp2` is any positive function with exp2(a + b) = exp2(a) * exp2(b). Sums of the reduction are
kept as trees, so their order is visible. Hashes are injective. Calls into code that is not shown
(allocator, resolver, tensor sort, collective votes, event completion) are parameters or contracts:
the resolver puts each requested block into the hot row it returns, frees are atomic, and every
failure the caller handles is a possible outcome of the call.

Two findings.

- Whole-K mode is meant to keep every column on one CTA. Group rounding of its stripes keeps that for
  every accepted launch whose group size is a multiple of 16
  (`StripeGroups.WholeBlocksKeepColumnsWhole`), but the checks of the launch do not ask for such a
  size, and then it can fail: size_k 2112 in 16 groups of 132 with two columns on 132 CTAs
  (`StripeGroups.AcceptedAndSplit`). `StripeGroups.WholeKSplitsIff` gives the exact condition in launch
  parameters.
- A sparse attention row whose first block selects no token gives not-a-number even if later blocks
  select some (`SparseAttention.HoleRow`), and so does a row of padding only, for which the reference
  gives 0 (`SparseAttention.PaddingRow`). `SparseAttention.PrefillRow` gives the exact condition. The
  rows the repository produces have their valid entries in front and start with one unless the request
  has no token (`SparseRows.TopKRowInFront`, `SparseRows.PackedRowInFront`), so a row with a hole is
  not among them, and a row of padding only where nothing can be selected.

## Model

| member | source | states |
|---|---|---|
| `StripePlan.PlanItersValid` | src/sglang_qsa_hisparse/kernels/csrc/marlin_moe/marlin_template.h:398-414 | For every tile count, grid size, mode and group rounding the stripes cover the whole line, and with at least one column per CTA a stripe is at least one column long; the stripe length is 0 exactly when there is no block |
| `StripePlan.StripeIsLeast` | src/sglang_qsa_hisparse/kernels/csrc/marlin_moe/marlin_template.h:398-414 | In both modes the stripe length is the least one that is long enough: that covers the line (split-K), or that lies on whole columns shared evenly by the CTAs (whole-K), and is a multiple of the group where there is one; no stripe starts inside a quantization group |
| `StripePlan.TileHasOneOwner` | src/sglang_qsa_hisparse/kernels/csrc/marlin_moe/marlin_template.h:398-418 | Every tile of the line lies in the stripe of exactly one CTA of the grid |
| `StripePlan.WorksIsInterval` | src/sglang_qsa_hisparse/kernels/csrc/marlin_moe/marlin_template.h:416-418 | The CTAs that own tiles of a column are exactly the consecutive ones from the owner of its first tile to the owner of its last |
| `StripePlan.SliceCountIsSharers` | src/sglang_qsa_hisparse/kernels/csrc/marlin_moe/marlin_template.h:579-585 | The branchy integer arithmetic for slice_count equals last owner - first owner + 1 |
| `StripePlan.SliceIdxIsRankFromBottom` | src/sglang_qsa_hisparse/kernels/csrc/marlin_moe/marlin_template.h:586-592 | The arithmetic for slice_idx equals the distance from the last owner |
| `StripePlan.SliceIdxBijection` | src/sglang_qsa_hisparse/kernels/csrc/marlin_moe/marlin_template.h:579-593 | slice_idx is a bijection from the CTAs that work in a column onto 0..slice_count-1 and decreases with blockIdx |
| `StripePlan.SliceCountCountsWorkers` | src/sglang_qsa_hisparse/kernels/csrc/marlin_moe/marlin_template.h:579-593 | slice_count is the number of CTAs with work in the column |
| `StripePlan.SharedLocksDistinct` | src/sglang_qsa_hisparse/kernels/csrc/marlin_moe/marlin_template.h:449-455 | Each shared column has a lock inside an array of one lock per CTA, and different shared columns have different locks, in both the many-columns and the few-columns case |
| `StripePlan.UnsplitIff` | src/sglang_qsa_hisparse/kernels/csrc/marlin_moe/marlin_template.h:398-418 | No column is split over CTAs if and only if one stripe holds the whole line or the stripe length is a multiple of k_tiles |
| `StripePlan.WholeKKeepsColumnsWhole` | src/sglang_qsa_hisparse/kernels/csrc/marlin_moe/stripe_schedule.h:17-19 | In whole-K mode every column belongs to one CTA for all sizes, also after group rounding when the group divides k_tiles |
| `StripeGroups.WholeBlocksDivide` | src/sglang_qsa_hisparse/kernels/csrc/marlin_moe/moe_wna16_marlin.cuh:660-668 | The launch checks make a group of whole 16-deep blocks divide the number of K tiles |
| `StripeGroups.AcceptedIff` | src/sglang_qsa_hisparse/kernels/csrc/marlin_moe/moe_wna16_marlin.cuh:660-668 | What the launch checks accept, as a condition on size_k and the number of groups: without groups any whole number of tiles and no rounding; else whole groups as many blocks deep as there is a kernel for, and stripes rounded to the whole tiles of a group |
| `StripeGroups.WholeBlocksKeepColumnsWhole` | src/sglang_qsa_hisparse/kernels/csrc/marlin_moe/moe_wna16_marlin.cuh:728-733 | Hence every accepted whole-K launch whose group size is a multiple of 16 keeps every column whole, group rounding included, for any number of columns, blocks and CTAs |
| `StripeGroups.WholeKSplitsIff` | src/sglang_qsa_hisparse/kernels/csrc/marlin_moe/marlin_template.h:407-414 | An accepted whole-K launch splits a column if and only if its groups are 8 blocks deep, its K tiles are odd in number and more than one, each CTA has an odd number of columns and not all of them: all of it readable from the launch parameters |
| `StripeGroups.AcceptedAndSplit` | src/sglang_qsa_hisparse/kernels/marlin_moe.py:135-145 | A launch that passes every check and splits a column: size_k 2112 in 16 groups of 132, two columns, 132 CTAs |
| `StripeCta.BlockOfIsInjective` | src/sglang_qsa_hisparse/kernels/csrc/marlin_moe/marlin_template.h:525-571 | Each MoE problem reads one block and different problems read different blocks, with expert-parallel blocks of -1 skipped |
| `StripeCta.Cta.constructor` | src/sglang_qsa_hisparse/kernels/csrc/marlin_moe/marlin_template.h:416-455 | The start of a CTA: position, problem and column agree with its first tile, and the lock index is ready for the first slice |
| `StripeCta.Cta.UpdateNextMoeBlock` | src/sglang_qsa_hisparse/kernels/csrc/marlin_moe/marlin_template.h:525-571 | After advancing, block_id is the block of problem par_id, and nothing moves past the last problem |
| `StripeCta.Cta.InitSlice` | src/sglang_qsa_hisparse/kernels/csrc/marlin_moe/marlin_template.h:574-626 | At every slice boundary: slice_iters is 0 exactly when the stripe is used up; otherwise column, problem, count, rank and lock are those of the column the position lies in, slice_col_par == par_id * n_tiles + slice_col included |
| `StripeCta.Cta.ClampIters` | src/sglang_qsa_hisparse/kernels/csrc/marlin_moe/marlin_template.h:575-578 | The slice runs from the later of stripe start and column start to the earlier of stripe end and column end |
| `StripeCta.Cta.ShareOfColumn` | src/sglang_qsa_hisparse/kernels/csrc/marlin_moe/marlin_template.h:579-593 | The updates of slice_count and slice_idx compute the two specification functions |
| `StripeCta.Cta.PickLock` | src/sglang_qsa_hisparse/kernels/csrc/marlin_moe/marlin_template.h:594-600 | In both lock modes the incremented locks_off is the lock of the column when the column is shared |
| `StripeCta.Cta.EnterProblem` | src/sglang_qsa_hisparse/kernels/csrc/marlin_moe/marlin_template.h:620-626 | Wrapping at n_tiles moves to the first column and to the block of the next problem |
| `StripeCta.Cta.Run` | src/sglang_qsa_hisparse/kernels/csrc/marlin_moe/marlin_template.h:1704-1860 | The CTA loop terminates; it multiplies exactly the tiles of its stripe in order, and its slices are one per column, in order and without a gap, each with the right column, problem, count, rank, lock and block |
| `StripeCta.Cta.MultiplySlice` | src/sglang_qsa_hisparse/kernels/csrc/marlin_moe/marlin_template.h:1704-1825 | A slice multiplies its tiles one after another, each once |
| `StripeCta.Cta.NextColumn` | src/sglang_qsa_hisparse/kernels/csrc/marlin_moe/marlin_template.h:1855-1860 | Advancing goes to the top of the next column, at a tile boundary of the stripe or past its end |
| `StripeCta.EveryTileOnce` | src/sglang_qsa_hisparse/kernels/csrc/marlin_moe/marlin_template.h:1704-1860 | Over the runs of all CTAs each tile of the line is visited exactly once |
| `StripeReduce.StepInv` | src/sglang_qsa_hisparse/kernels/csrc/marlin_moe/marlin_template.h:243-269 | Any step of any CTA (acquire, reduce, release, write) keeps the protocol invariant: ranks reduce in order, the lock counts the reductions done, the workspace holds the partial sum so far |
| `StripeReduce.HighestUnfinishedSteps` | src/sglang_qsa_hisparse/kernels/csrc/marlin_moe/marlin_template.h:243-269 | In every state the invariant allows, the highest-numbered unfinished CTA can step: no deadlock |
| `StripeReduce.StepLeavesLess` | src/sglang_qsa_hisparse/kernels/csrc/marlin_moe/marlin_template.h:1830-1839 | Every step leaves strictly less work, so no run is longer than the work there was |
| `StripeReduce.RunInv` | src/sglang_qsa_hisparse/kernels/csrc/marlin_moe/marlin_template.h:1830-1839 | The invariant holds at the end of every run, however CTAs interleave, and runs are bounded |
| `StripeReduce.EveryRunReduces` | src/sglang_qsa_hisparse/kernels/csrc/marlin_moe/marlin_template.h:1464-1515 | For every interleaving a shared column is reduced exactly in the order 0..slice_count-1; a run that cannot go on has finished every CTA, has all locks 0 and one fixed summation tree per column |
| `StripeReduce.AllFinished` | src/sglang_qsa_hisparse/kernels/csrc/marlin_moe/marlin_template.h:1464-1515 | When all CTAs are done all locks are 0 and every column holds the full summation chain from the bottom slice up |
| `StripeLaunch.LaunchLayoutValid` | src/sglang_qsa_hisparse/kernels/csrc/marlin_moe/marlin_template.h:398-455 | The tables of every launch meet everything the reduction protocol assumes; StripeLaunch.WalkIsTables says they are what the CTAs compute for themselves |
| `StripeLaunch.WalkIsTables` | src/sglang_qsa_hisparse/kernels/csrc/marlin_moe/marlin_template.h:574-626 | What a CTA walks is what the tables assign it: one slice for each of its columns in order, with the K tiles, number of sharers, rank and lock of the tables |
| `StripeLaunch.ChainIsWalkTree` | src/sglang_qsa_hisparse/kernels/csrc/marlin_moe/marlin_template.h:1464-1515 | The summation chain of a column is the tree of the slices its CTAs walked, by rank |
| `StripeLaunch.LaunchReduces` | src/sglang_qsa_hisparse/kernels/csrc/marlin_moe/marlin_template.h:1704-1860 | Schedule and protocol together, over the runs of the CTAs themselves: for any sizes every complete run ends with all locks 0 and each output column the sum of the slices its CTAs walked, in the order of their ranks |
| `StripeLaunch.WholeColumnTree` | src/sglang_qsa_hisparse/kernels/csrc/marlin_moe/stripe_schedule.h:17-19 | An unsplit column is its K tiles 0..k_tiles-1 summed in order by one CTA |
| `StripeLaunch.WholeKBatchInvariant` | src/sglang_qsa_hisparse/kernels/csrc/marlin_moe/stripe_schedule.h:17-19 | In whole-K mode the tree left in a column by any complete run depends on neither grid size, number of blocks nor interleaving |
| `OnlineSoftmax.TwoPassAtAnyMax` | src/sglang_qsa_hisparse/kernels/qsa_sparse_attn.py:635-672 | The two-pass softmax value is the same whatever number is subtracted from the scores |
| `OnlineSoftmax.MaxScoreIsLargest` | src/sglang_qsa_hisparse/kernels/qsa_sparse_attn.py:635-672 | What the reference subtracts is the largest score |
| `OnlineSoftmax.LaneMaxIs` | src/sglang_qsa_hisparse/kernels/qsa_sparse_attn.py:144-145 | The maximum over the lanes of a block is the largest unmasked score, minus infinity if there is none |
| `OnlineSoftmax.OneBlock` | src/sglang_qsa_hisparse/kernels/qsa_sparse_attn.py:126-162 | One block, masked lanes and minus-infinity maximum included, keeps the registers equal to the rescaled sums of everything seen, with the largest score seen as running maximum, so that no exponent is ever above 0; an all-masked first block spoils them, and nothing else does |
| `OnlineSoftmax.QuotientIsTwoPass` | src/sglang_qsa_hisparse/kernels/qsa_sparse_attn.py:163-163 | Unspoiled registers divide to the two-pass softmax-weighted sum |
| `SparseAttention.ScoresAgree` | src/sglang_qsa_hisparse/kernels/qsa_sparse_attn.py:105-143 | The kernel score (base 2, k descale folded in) is the reference score times log2(e) |
| `SparseAttention.LanesAreSelected` | src/sglang_qsa_hisparse/kernels/qsa_sparse_attn.py:126-143 | The unmasked lanes of a block are the reference entries of that block, descaled |
| `SparseAttention.CutKeepsSelection` | src/sglang_qsa_hisparse/kernels/qsa_sparse_attn.py:105-106 | A row of distinct visible tokens in front loses no entry to the row_limit cut, by pigeonhole |
| `SparseAttention.PrefillRow` | src/sglang_qsa_hisparse/kernels/qsa_sparse_attn.py:105-163 | For every row and block size: the output is a number if and only if something lies before the cut and the first block selects a token, and then it is the reference value of the entries before the cut |
| `SparseAttention.HoleRow` | src/sglang_qsa_hisparse/kernels/qsa_sparse_attn.py:105-163 | A concrete row, [-1, 0] with blocks of one entry, whose first block is padding: the kernel gives no number where the reference value is 1 |
| `SparseAttention.PaddingRow` | src/sglang_qsa_hisparse/kernels/qsa_sparse_attn.py:105-163 | A row of padding only gives no number, where the reference gives 0 |
| `SparseAttention.PrefillFrontRow` | src/sglang_qsa_hisparse/kernels/qsa_sparse_attn.py:277-342 | For rows whose valid entries are distinct, visible and in front the kernel computes the reference value of the whole row, for every block size |
| `SparseAttention.VisitBlock` | src/sglang_qsa_hisparse/kernels/qsa_sparse_attn.py:126-162 | The loop body extends what the registers hold by exactly the entries of its block |
| `SparseAttention.SweepBlocks` | src/sglang_qsa_hisparse/kernels/qsa_sparse_attn.py:126-162 | The loop over blocks ends with the registers of all entries before the cut |
| `SparseRows.TopKRowInFront` | src/sglang_qsa_hisparse/kernels/qsa_topk.py:30-57 | A row of the stable top-k has its valid entries in front, distinct and visible, and starts with one unless nothing is selectable: neither failing row is among them while the request has a token |
| `SparseRows.PackedRowInFront` | src/sglang_qsa_hisparse/patches/model_compat/qsa_attention.py:1038-1055 | A row of packed decode has its valid entries in front and starts with one unless the request has no token |
| `C4Layout.PackC4` | src/sglang_qsa_hisparse/hisparse/layout.py:10-14 | Packing succeeds exactly on equal planes of whole groups of four and yields one record per group |
| `C4Layout.UnpackPack` | src/sglang_qsa_hisparse/hisparse/layout.py:10-20 | Unpacking packed rows restores them: K plane, then V plane |
| `C4Layout.UnpackRow` | src/sglang_qsa_hisparse/hisparse/layout.py:17-20 | Row 4b + m of either plane is member m of that plane in record b |
| `C4Layout.PackedBlocks` | src/sglang_qsa_hisparse/hisparse/layout.py:10-14 | Packing any block-aligned stretch of a prompt gives exactly the records of its blocks |
| `C4Layout.RingRowsOfBlock` | src/sglang_qsa_hisparse/hisparse/slots.py:85-89 | The four lengths at which the tokens of one block are written have the ring rows 1, 2, 3 and 4, in order |
| `C4Offload.HotStaged` | src/sglang_qsa_hisparse/hisparse/layout.py:23-28 | Staging a prompt makes every closed block resident at its own number while they fit, with the newest row holding the last one |
| `C4Offload.HotClosed` | src/sglang_qsa_hisparse/hisparse/single_request.py:430-434 | Closing a block keeps every earlier block resident and adds the new one, below and at the newest row |
| `C4Offload.RingRecord` | src/sglang_qsa_hisparse/hisparse/single_request.py:428-429 | Four members in the ring are the record of their block |
| `C4Offload.UnpackedMember` | src/sglang_qsa_hisparse/hisparse/single_request.py:511-512 | Given the resolver contract, unpacked row j is K and row 2048 + j is V of the j-th selected token |
| `C4Offload.RowsLaid` | src/sglang_qsa_hisparse/hisparse/single_request.py:511-521 | The rows laid are the selected rows, then the open block from the ring, at consecutive places |
| `C4Offload.MappedRowsLocated` | src/sglang_qsa_hisparse/hisparse/single_request.py:522-529 | Laid rows and table entries together locate every valid selected token on both planes |
| `C4Offload.AllFound` | src/sglang_qsa_hisparse/hisparse/single_request.py:521-529 | Rows and entries laid for min(length / 4, 512) * 4 selected and length % 4 open tokens leave every open token, and every closed one that is named, found |
| `C4Offload.MappedOneMore` | src/sglang_qsa_hisparse/hisparse/single_request.py:523-529 | One more table entry keeps the earlier ones right, also when a token is named twice |
| `C4Offload.ScatterRows` | src/sglang_qsa_hisparse/hisparse/single_request.py:523-529 | The table ends mapping each named token to a row that holds it, and no other entry changes |
| `C4Offload.LayerCache.constructor` | src/sglang_qsa_hisparse/hisparse/runtime.py:73-84 | A fresh layer holds no token and no copy in flight |
| `C4Offload.LayerCache.CopyStream` | src/sglang_qsa_hisparse/hisparse/runtime.py:1453-1524 | A copy that ends at any time, reading its source only then, keeps every closed block in host memory or in flight from the newest row |
| `C4Offload.LayerCache.WaitForCopies` | src/sglang_qsa_hisparse/hisparse/single_request.py:425-426 | Waiting leaves every closed block in host memory and nothing in flight |
| `C4Offload.LayerCache.CopyPrompt` | src/sglang_qsa_hisparse/hisparse/runtime.py:1453-1524 | Chunked copying of a prompt of any length, cut as the chunk loop says, puts every closed block in its host row |
| `C4Offload.LayerCache.StageRing` | src/sglang_qsa_hisparse/hisparse/runtime.py:1453-1524 | The open tokens of the prompt lie in ring rows 1..length % 4 |
| `C4Offload.LayerCache.StageHot` | src/sglang_qsa_hisparse/hisparse/runtime.py:73-84 | The hot buffer of a handed-over layer represents the prompt |
| `C4Offload.LayerCache.Handoff` | src/sglang_qsa_hisparse/hisparse/runtime.py:1453-1524 | Handoff represents any prompt within capacity as host records, ring and hot rows, and leaves the compact buffers alone |
| `C4Offload.LayerCache.DecodeStep` | src/sglang_qsa_hisparse/hisparse/runtime.py:1289-1373 | For every copy-stream timing, a decode step appends one token and keeps the representation: closed blocks in host or the one copy in flight whose source is not overwritten, tail in the ring, hot rows by number; at capacity it is refused unchanged |
| `C4Offload.LayerCache.Store` | src/sglang_qsa_hisparse/hisparse/runtime.py:1289-1373 | The raw write lands at the ring row of the new length, 1 + (length - 1) % 4, and appends exactly that token |
| `C4Offload.LayerCache.AfterStore` | src/sglang_qsa_hisparse/hisparse/single_request.py:418-447 | Closing happens only on a multiple of four and waits for the copy in flight before it reuses the newest row |
| `C4Offload.LayerCache.CloseBlock` | src/sglang_qsa_hisparse/hisparse/single_request.py:427-447 | The closed record, its copy and its tokens cover the new block |
| `C4Offload.LayerCache.Selected` | src/sglang_qsa_hisparse/hisparse/runtime.py:1579-1668 | After a selection every token of the open block, and every closed one the raw row names, is found: its table entry, less the base, is a compact row that holds its K and V; table entries of other tokens are unchanged |
| `C4Offload.LayerCache.ResolveAndGather` | src/sglang_qsa_hisparse/hisparse/runtime.py:1579-1610 | The rows gathered through the resolver are the records of the requested blocks, hot buffer and tokens are the ones it returned, and the cache still represents the tokens |
| `C4Offload.LayerCache.LayRows` | src/sglang_qsa_hisparse/hisparse/single_request.py:511-521 | The compact planes hold the K and V of the min(length / 4, 512) * 4 selected and length % 4 open tokens in order |
| `C4Offload.LayerCache.MapTokens` | src/sglang_qsa_hisparse/hisparse/single_request.py:522-529 | The table finds each of them, the open ones included |
| `GraphKernels.CloseRow` | src/sglang_qsa_hisparse/hisparse/graph.py:11-31 | One program writes the flat bytes and token cells of its row exactly when the row is live and its length a multiple of four |
| `GraphKernels.StoredRecordView` | src/sglang_qsa_hisparse/hisparse/graph.py:20-31 | A record stored at its flat offset is the ring record in that slot and row; no other record of any slot changes |
| `GraphKernels.CloseIsEager` | src/sglang_qsa_hisparse/hisparse/graph.py:11-31 | The flat writes of a closing row equal the eager closing of its slot and leave every other slot alone |
| `GraphKernels.CloseOneMore` | src/sglang_qsa_hisparse/hisparse/graph.py:11-31 | One more program of the grid, in any order, keeps the agreement with the eager path |
| `GraphKernels.CloseC4` | src/sglang_qsa_hisparse/hisparse/graph.py:11-31 | For every batch, slot assignment and grid order the kernel leaves each closing slot as after_store would and all others unchanged |
| `GraphCompact.RowsStoredStep` | src/sglang_qsa_hisparse/hisparse/graph.py:48-56 | Storing one member changes one compact row of one slot and plane |
| `GraphCompact.TableStoredStep` | src/sglang_qsa_hisparse/hisparse/graph.py:57-61 | Storing one map entry changes one entry of one slot table |
| `GraphCompact.StoreMember` | src/sglang_qsa_hisparse/hisparse/graph.py:43-56 | The flat bytes of a member come from the unpacked planes if selected, else from the ring of its slot |
| `GraphCompact.CompactProgram` | src/sglang_qsa_hisparse/hisparse/graph.py:34-61 | One program stores exactly the rows and entries of its chunk on both planes |
| `GraphCompact.ProgramKeepsSlot` | src/sglang_qsa_hisparse/hisparse/graph.py:34-61 | A program never touches another slot, neither compact rows nor table |
| `GraphCompact.ProgramExtendsRow` | src/sglang_qsa_hisparse/hisparse/graph.py:34-61 | Programs of one row add up in any order |
| `GraphCompact.GridIsEager` | src/sglang_qsa_hisparse/hisparse/graph.py:34-61 | Once every program ran, each live slot has the compact rows and table the eager finish_selected gives |
| `GraphCompact.FinishCompact` | src/sglang_qsa_hisparse/hisparse/graph.py:34-61 | For every grid order the launch equals the eager path on each live slot and leaves all other slots unchanged |
| `GraphCompact.GraphSelectionLocated` | src/sglang_qsa_hisparse/hisparse/graph.py:34-61 | Hence after a graph selection every token of the open block, and every closed one a live row names, is found: its entry in the slot table names a row of the slot that holds its K, and its V one plane further on |
| `GraphReplay.EndKeeps` | src/sglang_qsa_hisparse/hisparse/runtime.py:654-679 | A copy that ends keeps every closed block of every slot and layer, in host or in flight |
| `GraphReplay.CloseKeeps` | src/sglang_qsa_hisparse/hisparse/runtime.py:654-679 | Overwriting a newest row no copy reads, and submitting its copy, keeps all blocks |
| `GraphReplay.TailDropped` | src/sglang_qsa_hisparse/hisparse/runtime.py:611-634 | Copies that were never submitted concern only leases marked failed |
| `GraphReplay.ClosesAre` | src/sglang_qsa_hisparse/hisparse/runtime.py:636-679 | A replay closes exactly the lanes of rows whose length is a multiple of four, each once |
| `GraphReplay.ClosesFit` | src/sglang_qsa_hisparse/hisparse/runtime.py:565-584 | After the wait in prepare, the closes of a batch of live leases meet no copy in flight on their rows |
| `GraphReplay.WroteClosed` | src/sglang_qsa_hisparse/hisparse/runtime.py:654-679 | After all writes exactly the rows of the batch have gained their block |
| `GraphReplay.HandedKeeps` | src/sglang_qsa_hisparse/hisparse/runtime.py:1453-1524 | A slot without copies in flight may be handed a new prompt without harm to any other |
| `GraphReplay.GraphCopies.CopyRuns` | src/sglang_qsa_hisparse/hisparse/runtime.py:654-679 | A copy that ends, at whatever point of a replay, keeps all blocks of all slots and the order of those still in flight |
| `GraphReplay.GraphCopies.CopiesRun` | src/sglang_qsa_hisparse/hisparse/runtime.py:654-679 | Any number of copies may end between any two steps |
| `GraphReplay.GraphCopies.WaitForEvent` | src/sglang_qsa_hisparse/hisparse/runtime.py:574-580 | Waiting for the latest event leaves in flight only copies of leases that are failed and not drained |
| `GraphReplay.GraphCopies.Drain` | src/sglang_qsa_hisparse/hisparse/runtime.py:594-609 | A drain that answers leaves nothing in flight; one that raises changes nothing |
| `GraphReplay.GraphCopies.Fail` | src/sglang_qsa_hisparse/hisparse/runtime.py:611-634 | All leases of the batch are failed, and stay blocked until a drain answers |
| `GraphReplay.GraphCopies.WriteNewest` | src/sglang_qsa_hisparse/hisparse/runtime.py:654-679 | The kernels write newest rows none of which is still being copied, with the copy stream running between any two writes |
| `GraphReplay.GraphCopies.WriteRow` | src/sglang_qsa_hisparse/hisparse/runtime.py:654-679 | One write lands on a row no copy in flight reads, and gives its lane exactly one block more |
| `GraphReplay.GraphCopies.RunKernels` | src/sglang_qsa_hisparse/hisparse/runtime.py:565-584 | Run to the end, the kernels close exactly the closing rows; stopped anywhere, they harm no other slot |
| `GraphReplay.GraphCopies.Submit` | src/sglang_qsa_hisparse/hisparse/runtime.py:654-679 | Submitting up to any point, the copy stream running in between, keeps all blocks |
| `GraphReplay.GraphCopies.RecordEvent` | src/sglang_qsa_hisparse/hisparse/runtime.py:673-679 | The recorded event covers every copy in flight |
| `GraphReplay.GraphCopies.Replay` | src/sglang_qsa_hisparse/hisparse/runtime.py:565-723 | A whole replay with a fault at any point: on success exactly the closing rows gain their block; on a fault the batch is failed; in both cases every block of every lease that has not failed is kept |
| `GraphReplay.GraphCopies.Finish` | src/sglang_qsa_hisparse/hisparse/runtime.py:636-723 | finish_graph_replay either covers every copy by the event or fails the batch |
| `GraphReplay.GraphCopies.Release` | src/sglang_qsa_hisparse/hisparse/runtime.py:1682-1711 | A slot becomes free only after a wait that answered, and then none of its copies is in flight |
| `GraphReplay.GraphCopies.Lease` | src/sglang_qsa_hisparse/hisparse/runtime.py:1453-1524 | A reused slot starts with exactly its prompt, the last block of it in the newest row; other slots are untouched |
| `Pages.AlignedPages` | src/sglang_qsa_hisparse/hisparse/prefix_cache.py:233-241 | A stretch of a row from a page boundary covers exactly the pages from there on |
| `Pages.NewPages` | src/sglang_qsa_hisparse/hisparse/prefix_cache.py:242-251 | Freeing the row behind the previous length, less (-old) % page_size tokens, frees exactly the pages the extension took |
| `Pages.CutIsEven` | src/sglang_qsa_hisparse/hisparse/runtime.py:1115-1116 | The chunks of a copy adjoin, from the start to the length; all but the last have 4096 tokens |
| `Rollback.FirstPages` | src/sglang_qsa_hisparse/hisparse/prefix_cache.py:275-280 | Prefix and suffix together give back every page of a first extension once |
| `Rollback.OwnedPagesKept` | src/sglang_qsa_hisparse/hisparse/prefix_cache.py:242-251 | No page held before the extension, the partly filled one included, is ever given back by its rollback |
| `Rollback.Extension.constructor` | src/sglang_qsa_hisparse/hisparse/prefix_cache.py:159-170 | A request before its extension owns its pages and, on a hit, one pinned reader |
| `Rollback.Extension.Prepare` | src/sglang_qsa_hisparse/hisparse/prefix_cache.py:159-184 | The record is kept before any check raises, and never overwrites another |
| `Rollback.Extension.TakePrefix` | src/sglang_qsa_hisparse/hisparse/prefix_cache.py:186-195 | Fresh pages are taken once for a hit, however often it is asked for |
| `Rollback.Extension.Extend` | src/sglang_qsa_hisparse/hisparse/prefix_cache.py:159-195 | An allocation of whole pages is what the record accounts for |
| `Rollback.Extension.Hand` | src/sglang_qsa_hisparse/hisparse/prefix_cache.py:197-215 | A handed-over hit has a live lease, no record and a closed reader; any failure keeps record and pin |
| `Rollback.Extension.ReleaseAborted` | src/sglang_qsa_hisparse/hisparse/prefix_cache.py:368-375 | The reader is closed exactly when there is no undecided record |
| `Rollback.Extension.Release` | src/sglang_qsa_hisparse/hisparse/runtime.py:1682-1711 | A release that returns has drained the lease; one that raises leaves it where a retry can find it |
| `Rollback.Extension.AfterRelease` | src/sglang_qsa_hisparse/hisparse/runtime.py:1713-1733 | A lease ends committed or queued for the logical flush; a failure leaves a known stage |
| `Rollback.Extension.Rollback` | src/sglang_qsa_hisparse/hisparse/prefix_cache.py:217-307 | For every pattern of failing calls and any number of retries: each page is freed at most once and only if the extension took it, exactly once when rollback completes; then allocated and committed length are the recorded ones, and for a first extension both are 0 with row and state slot returned; the pin is dropped only with the lease committed or queued; if nothing fails it completes |
| `Rollback.Extension.Settle` | src/sglang_qsa_hisparse/hisparse/prefix_cache.py:226-241 | The pages behind the previous length are computed once, after the restore stream is drained |
| `Rollback.Extension.RollbackFirst` | src/sglang_qsa_hisparse/hisparse/prefix_cache.py:257-307 | A first extension gives back all its pages only after its lease drained, and ends with length 0 and without row and state slot |
| `Rollback.Extension.RollbackExtension` | src/sglang_qsa_hisparse/hisparse/prefix_cache.py:242-256 | A later extension gives back its new pages only, sets allocated and committed length to the recorded ones and keeps its lease, row and state slot |
| `Rollback.Extension.EndExtension` | src/sglang_qsa_hisparse/hisparse/prefix_cache.py:252-256 | Both lengths are the recorded ones and the record is gone; row, state slot and lease are as they were |
| `Rollback.Extension.ReleaseLease` | src/sglang_qsa_hisparse/hisparse/prefix_cache.py:259-274 | A drain that raised after it drained is not repeated |
| `Rollback.Extension.FreePages` | src/sglang_qsa_hisparse/hisparse/prefix_cache.py:275-280 | All pages are given back by one call that either happens or does not |
| `Rollback.Extension.FreeSuffix` | src/sglang_qsa_hisparse/hisparse/prefix_cache.py:242-251 | The pages behind the page-rounded previous length are given back by one call; if it raises nothing has changed |
| `Rollback.Extension.EndFirst` | src/sglang_qsa_hisparse/hisparse/prefix_cache.py:281-295 | Once every page is given back, the record goes exactly when nothing raises any more; then the reader is not pinned and the lease is gone, committed or queued |
| `Rollback.Extension.Finish` | src/sglang_qsa_hisparse/hisparse/prefix_cache.py:281-307 | The record goes when the lease is committed or queued, not before |
| `Rollback.Extension.LogicalFlush` | src/sglang_qsa_hisparse/hisparse/runtime.py:1735-1744 | A queued lease is committed by the flush and stays queued if that raises before the commit |
| `Rollback.RollbackAll` | src/sglang_qsa_hisparse/hisparse/prefix_cache.py:217-307 | Over a list of requests: those before the first that raises are rolled back and their records gone, that one is where a retry can go on, those after it are as they were |
| `ImageIdentity.PageDigests` | src/sglang_qsa_hisparse/hisparse/image_identity.py:50-62 | The digest list is the cumulative chain over complete pages only |
| `ImageIdentity.ChainInjective` | src/sglang_qsa_hisparse/hisparse/image_identity.py:50-62 | Equal digests if and only if as many pages of equal positions |
| `ImageIdentity.KeyMeaning` | src/sglang_qsa_hisparse/hisparse/image_identity.py:46-47 | Two keys of one length are equal if and only if all positions before it and all images that start before it are equal |
| `ImageIdentity.RecordsAtAre` | src/sglang_qsa_hisparse/hisparse/image_identity.py:38-39 | The records of a key are exactly the images that start before the length |
| `ImageIdentity.RecordsAtTwice` | src/sglang_qsa_hisparse/hisparse/image_identity.py:38-39 | Cutting records at a length and then at a smaller one is cutting at the smaller one |
| `ImageIdentity.KeyAtShorter` | src/sglang_qsa_hisparse/hisparse/image_identity.py:38-47 | Equal keys at a length imply that keys exist and are equal at every smaller page boundary |
| `HostPrefix.UsedBytes` | src/sglang_qsa_hisparse/hisparse/prefix.py:113-129 | The footprint counts each storage and token key once over live and retired snapshots |
| `HostPrefix.EvictOne` | src/sglang_qsa_hisparse/hisparse/prefix.py:131-137 | Evicts the least recently used entry without readers, leaving the others in their order, or proves every entry is read |
| `HostPrefix.DropUnread` | src/sglang_qsa_hisparse/hisparse/prefix.py:131-137 | The first entry in order without readers is dropped; the rest keep their order, and everything else and all counts stay |
| `HostPrefix.ReserveIn` | src/sglang_qsa_hisparse/hisparse/prefix.py:175-188 | The eviction loop terminates; it grants a positive size within the budget after the least number of evictions with which it fits, of the least recently used entries without readers, or stops with every entry read and still no room |
| `HostPrefix.ReservedIffRoom` | src/sglang_qsa_hisparse/hisparse/prefix.py:175-188 | A reservation is granted if and only if its size is positive and what readers and other reservations hold leaves room for it |
| `HostPrefix.RemainingNext` | src/sglang_qsa_hisparse/hisparse/prefix.py:131-137 | Evicting one at a time removes the unread entries in LRU order: n + 1 evictions are n and then the next unread one |
| `HostPrefix.FindLongest` | src/sglang_qsa_hisparse/hisparse/prefix.py:139-157 | The longest entry whose namespace, tokens and image key match within the cap, the first in order among those; a key is asked for only where it exists |
| `HostPrefix.CapIs` | src/sglang_qsa_hisparse/hisparse/prefix.py:139-144 | For a whole number of pages: within the cap if and only if within the limit, or else the prompt, and an image prompt has a key of that length |
| `HostPrefix.ReusedIffSameImages` | src/sglang_qsa_hisparse/hisparse/prefix.py:144-153 | What was captured of one prompt is reused for another if and only if it is of its namespace, begins it, lies within the cap, and either neither has images or token positions and images before the length are equal |
| `HostPrefix.AcquireIn` | src/sglang_qsa_hisparse/hisparse/prefix.py:139-163 | The longest reusable entry is pinned once and becomes the most recently used |
| `HostPrefix.AcquiredIsNewest` | src/sglang_qsa_hisparse/hisparse/prefix.py:157-163 | The acquired entry has one reader more and is last in the order; all others keep their place among each other and nothing else has changed |
| `HostPrefix.ChoiceIgnoresOrder` | src/sglang_qsa_hisparse/hisparse/prefix.py:139-157 | Among entries distinct by namespace, tokens and key the choice does not depend on the LRU order |
| `HostPrefix.CheckSegments` | src/sglang_qsa_hisparse/hisparse/prefix.py:201-219 | The checks accept exactly the gap-free chains of whole pages up to the length |
| `HostPrefix.ChainedIffCovers` | src/sglang_qsa_hisparse/hisparse/prefix.py:201-219 | A segment list passes those checks if and only if its segments are whole pages in order that hold every position below the length exactly once and none behind it |
| `HostPrefix.PublishIn` | src/sglang_qsa_hisparse/hisparse/prefix.py:190-233 | Publishes if and only if complete, of the current epoch, well-formed and within its reservation; the reservation closes in every case |
| `HostPrefix.CloseReservationAt` | src/sglang_qsa_hisparse/hisparse/prefix.py:86-99 | A closing reservation returns its size and entry and closes the reader it owns |
| `HostPrefix.ClosedKeeps` | src/sglang_qsa_hisparse/hisparse/prefix.py:165-173 | Closing any reader is possible without underflow and keeps all bounds and counts |
| `HostPrefix.UncountedKeeps` | src/sglang_qsa_hisparse/hisparse/prefix.py:92-99 | Returning a reservation restores the bounds it was about to exceed |
| `HostPrefix.AddedKeeps` | src/sglang_qsa_hisparse/hisparse/prefix.py:220-231 | A published snapshot exceeds the bounds by no more than its new bytes and one entry |
| `HostPrefix.FlushedKeeps` | src/sglang_qsa_hisparse/hisparse/prefix.py:235-243 | A flush keeps the bounds, the reader counts and every pinned snapshot |
| `HostPrefix.FlushedOut` | src/sglang_qsa_hisparse/hisparse/prefix.py:190-199 | What was reserved before a flush is not published after it |
| `HostPrefix.TablesFlushed` | src/sglang_qsa_hisparse/hisparse/prefix.py:235-243 | Pinned entries survive a flush as retired ones with their readers |
| `HostPrefix.UnreadDropped` | src/sglang_qsa_hisparse/hisparse/prefix.py:131-137 | Dropping an unread entry breaks no reader and frees no less than nothing |
| `HostPrefix.Cache.constructor` | src/sglang_qsa_hisparse/hisparse/prefix.py:103-111 | An empty cache meets the invariant |
| `HostPrefix.Cache.Reserve` | src/sglang_qsa_hisparse/hisparse/prefix.py:175-188 | used_bytes + pending_bytes <= budget and entries + retired + pending <= max_entries after every reserve, and what is gone is the least recently used unread prefix |
| `HostPrefix.Cache.Acquire` | src/sglang_qsa_hisparse/hisparse/prefix.py:139-163 | The same bounds and reader counts after every acquire, with its whole new state |
| `HostPrefix.Cache.CloseReader` | src/sglang_qsa_hisparse/hisparse/prefix.py:76-83 | A reader closes once; a retired entry vanishes exactly with its last reader |
| `HostPrefix.Cache.OwnBasis` | src/sglang_qsa_hisparse/hisparse/prefix.py:86-99 | A reservation takes over the reader of its basis |
| `HostPrefix.Cache.CloseReservation` | src/sglang_qsa_hisparse/hisparse/prefix.py:86-99 | Closing again changes nothing; closing once returns size, entry and basis |
| `HostPrefix.Cache.Publish` | src/sglang_qsa_hisparse/hisparse/prefix.py:190-233 | The whole state after a publication, accepted or refused, within the bounds |
| `HostPrefix.Cache.Reset` | src/sglang_qsa_hisparse/hisparse/prefix.py:235-243 | The whole state after a flush, within the bounds |
| `CaptureRestore.CaptureLayer` | src/sglang_qsa_hisparse/hisparse/runtime.py:1115-1131 | A captured stretch holds exactly the raw rows and index rows the request table addresses |
| `CaptureRestore.Capture` | src/sglang_qsa_hisparse/hisparse/runtime.py:1112-1131 | For any length, basis and chunking the captured chunks represent the prefix without a gap, begin with the basis and are cut as the loop says; that a basis is what the row holds is PrefixRequest.BasisHeld |
| `CaptureRestore.PagedGroups` | src/sglang_qsa_hisparse/hisparse/runtime.py:1164-1182 | Any injective page mapping gives distinct index rows to distinct groups |
| `CaptureRestore.RestoreLayer` | src/sglang_qsa_hisparse/hisparse/runtime.py:1164-1182 | Restoring a stretch stores it and leaves every row outside it alone |
| `CaptureRestore.EarlierKept` | src/sglang_qsa_hisparse/hisparse/runtime.py:1164-1182 | A later stretch does not disturb an earlier one |
| `CaptureRestore.Restore` | src/sglang_qsa_hisparse/hisparse/runtime.py:1157-1182 | Restoring a chain into any row represents it in full and changes nothing else |
| `CaptureRestore.SameContents` | src/sglang_qsa_hisparse/hisparse/runtime.py:1157-1228 | Two rows represented by the same chunks agree on raw K and V at each position and on the index row of each group, whatever their pages |
| `CaptureRestore.BasisKept` | src/sglang_qsa_hisparse/hisparse/runtime.py:1095-1108 | A prefill that writes only behind its length, into a table that keeps its earlier groups, keeps every basis not longer than that true |
| `CaptureRestore.RepresentsSame` | src/sglang_qsa_hisparse/hisparse/runtime.py:1095-1108 | What chunks say of a row they say of any row with the same groups and contents below their length |
| `CaptureRestore.BehindKeepsBelow` | src/sglang_qsa_hisparse/hisparse/runtime.py:1095-1108 | Writes behind a length leave every row and group below it alone |
| `StateCapture.CaptureRings` | src/sglang_qsa_hisparse/hisparse/runtime.py:1132-1137 | The four ring rows of a request in every pending pool |
| `StateCapture.RestoreRings` | src/sglang_qsa_hisparse/hisparse/runtime.py:1198-1200 | The ring written holds the copy, and no other ring of any pool changes |
| `StateCapture.CaptureSlot` | src/sglang_qsa_hisparse/hisparse/runtime.py:961-969 | A slot of a tensor, layer by layer where there are layers |
| `StateCapture.RestoreSlot` | src/sglang_qsa_hisparse/hisparse/runtime.py:972-977 | The slot holds the copy, and no other slot of the tensor changes |
| `StateCapture.CaptureState` | src/sglang_qsa_hisparse/hisparse/runtime.py:1132-1138 | Pending rings, position rows, convolution, temporal and sibling slots of a request, as copies that fit the pools |
| `StateCapture.RestoreState` | src/sglang_qsa_hisparse/hisparse/runtime.py:1198-1201 | Restored at any ring and slot they are the state there, and every other ring and slot is unchanged |
| `PrefixRequest.HeldAlike` | src/sglang_qsa_hisparse/hisparse/runtime.py:1157-1228 | Rows that hold the same contents agree at every position of every layer and in all their state, whatever their pages, rings and slots |
| `PrefixRequest.BasisHeld` | src/sglang_qsa_hisparse/hisparse/runtime.py:1074-1098 | An entry of the id the request noted is the snapshot whose chunks its row holds: the id comparison justifies sharing, since no id is used twice |
| `PrefixRequest.StoredGrown` | src/sglang_qsa_hisparse/hisparse/prefix.py:220-231 | A published snapshot has an id no tensors were stored under, and adds its own |
| `PrefixRequest.CapturedCarries` | src/sglang_qsa_hisparse/hisparse/runtime.py:1108-1131 | The segments the cache counts and the tensors captured are cut at the same places |
| `PrefixRequest.PrefixRuntime.constructor` | src/sglang_qsa_hisparse/hisparse/prefix_cache.py:31-42 | With an empty cache nothing is stored and no request holds anything |
| `PrefixRequest.PrefixRuntime.Begin` | src/sglang_qsa_hisparse/hisparse/runtime.py:925-935 | A request begins without a basis |
| `PrefixRequest.PrefixRuntime.Restore` | src/sglang_qsa_hisparse/hisparse/runtime.py:1157-1228 | Whatever row, ring and slot a request is given, it ends up holding what is stored of the snapshot, which always passes the validation, and nothing else on the device is written |
| `PrefixRequest.PrefixRuntime.NoteBasis` | src/sglang_qsa_hisparse/hisparse/runtime.py:937-942 | A basis may be noted only of what the row holds |
| `PrefixRequest.PrefixRuntime.Hand` | src/sglang_qsa_hisparse/hisparse/prefix_cache.py:197-215 | After a hit the row holds the snapshot, and its entry is the basis |
| `PrefixRequest.PrefixRuntime.Extend` | src/sglang_qsa_hisparse/hisparse/runtime.py:1104-1131 | A forward that writes behind the length keeps the basis true at its length |
| `PrefixRequest.PrefixRuntime.OthersWrite` | src/sglang_qsa_hisparse/hisparse/runtime.py:1104-1131 | So do writes of other requests to rows of their own |
| `PrefixRequest.PrefixRuntime.Checkpoint` | src/sglang_qsa_hisparse/hisparse/prefix_cache.py:309-346 | For every prefill, at any length, with or without a basis: what is published is what the row holds, under a new id, and becomes its basis; if nothing is published nothing has changed; after a flush since the request began nothing is published; a capture is skipped only then, off a page boundary, where a checkpoint of the whole prompt exists, or for want of room |
| `PrefixRequest.PrefixRuntime.Lookup` | src/sglang_qsa_hisparse/hisparse/prefix.py:139-163 | A lookup stores and drops no tensors |
| `PrefixRequest.PrefixRuntime.CloseReader` | src/sglang_qsa_hisparse/hisparse/prefix.py:76-83 | Nor does closing a reader |
| `PrefixRequest.PrefixRuntime.Flush` | src/sglang_qsa_hisparse/hisparse/prefix.py:235-243 | A flush keeps what requests hold, and their bases |
| `PrefixRequest.PrefixRuntime.HandAgain` | src/sglang_qsa_hisparse/hisparse/prefix.py:139-163 | The checkpoint of a prompt that one entry holds is found and restored into any row, and its reader closed again |
| `PrefixRequest.PrefixRuntime.RoundTrip` | src/sglang_qsa_hisparse/hisparse/runtime.py:1044-1228 | Capture, publish, look up, restore: the second row equals the first at every position of every layer and in pending, position and recurrent state, whatever its pages, ring and slot, nothing else is written and no reader stays open; it raises exactly without an image key, and is skipped only off a page boundary, after a flush, where a checkpoint exists or for want of room |
| `CaptureBytes.SegmentsWeigh` | src/sglang_qsa_hisparse/hisparse/runtime.py:944-958 | The new segments weigh what their token count says, however they are cut into chunks |
| `CaptureBytes.CaptureAddsItsReservation` | src/sglang_qsa_hisparse/hisparse/runtime.py:944-958 | A snapshot on a basis in use adds exactly prefix_checkpoint_bytes(delta, length) to the cache |
| `CaptureBytes.BasisInUse` | src/sglang_qsa_hisparse/hisparse/runtime.py:1104-1108 | An open reader keeps the segments of its snapshot in the cache, in every state |
| `PrefixCapture.CopySegments` | src/sglang_qsa_hisparse/hisparse/runtime.py:1108-1131 | The chunk loop extends the basis to a chain publish accepts, whatever length and start, cut every 4096 tokens from the start |
| `PrefixCapture.ChooseBasis` | src/sglang_qsa_hisparse/hisparse/runtime.py:1065-1098 | Complete exactly if an entry holds the whole prompt; else of two lookups at most one reader stays open, only of the entry this request noted, and with distinct entries that one is found whenever it is still there at the noted length |
| `PrefixCapture.BasisFound` | src/sglang_qsa_hisparse/hisparse/runtime.py:1074-1094 | Looked up by its length, the noted entry is the one found among distinct entries |
| `PrefixCapture.ReserveRest` | src/sglang_qsa_hisparse/hisparse/runtime.py:1099-1106 | The reservation owns the basis reader; it is refused only where what is held leaves no room, and then nothing stays open |
| `PrefixCapture.CapturePrefix` | src/sglang_qsa_hisparse/hisparse/runtime.py:1044-1155 | Either nothing stays open, because an entry holds the whole prompt, or there is no room, or a copy or the image key fails; or a reservation and a well-formed snapshot that weighs exactly what was reserved |
| `PrefixCapture.Checkpoint` | src/sglang_qsa_hisparse/hisparse/prefix_cache.py:309-346 | Whatever raises or disagrees, no reader and no reservation is left behind; if copies succeed it raises only for disagreement or a missing image key, so publish never reports an exceeded reservation; what is published is new and begins with the segments of its basis, an entry of the id offered, if any; it is skipped only for a checkpoint of the whole prompt, an earlier epoch or want of room |
| `PrefixCapture.PublishedIsFound` | src/sglang_qsa_hisparse/hisparse/prefix.py:139-157 | What was published is found again: a prompt that begins with its tokens, of its namespace and key, gets a checkpoint at least as long |
| `PrefixMatches.ReadersAreOwners` | src/sglang_qsa_hisparse/hisparse/prefix.py:76-99 | The reader count of every live or retired entry is the number of requests matched to it plus the captures built on it |
| `PrefixMatches.QSAHostPrefixCache.constructor` | src/sglang_qsa_hisparse/hisparse/prefix_cache.py:31-42 | No request owns a reader at the start |
| `PrefixMatches.QSAHostPrefixCache.ReleaseAborted` | src/sglang_qsa_hisparse/hisparse/prefix_cache.py:368-375 | An undecided extension keeps its reader; otherwise the reader is closed and forgotten |
| `PrefixMatches.QSAHostPrefixCache.MatchPrefix` | src/sglang_qsa_hisparse/hisparse/prefix_cache.py:79-124 | The earlier reader is closed, the longest reusable entry is acquired, and its reader is kept only if all ranks agree; a request that may not reuse has its earlier reader closed and no more; refused during a restore |
| `PrefixMatches.QSAHostPrefixCache.Prepare` | src/sglang_qsa_hisparse/hisparse/prefix_cache.py:159-184 | A second record is refused; otherwise the record owns what was matched, and only then raises, exactly if the ranks differ, a hit is not admitted at its length into a fresh row, or a prefix has no snapshot owner |
| `PrefixMatches.QSAHostPrefixCache.Hand` | src/sglang_qsa_hisparse/hisparse/prefix_cache.py:197-215 | Raises exactly when a matched snapshot is of another identity or fails to restore, changing nothing; otherwise the reader is closed and the record forgotten |
| `PrefixMatches.QSAHostPrefixCache.EndRecord` | src/sglang_qsa_hisparse/hisparse/prefix_cache.py:296-307 | The end of a rollback closes the reader and forgets record and match |
| `PrefixMatches.QSAHostPrefixCache.DropHostPrefixes` | src/sglang_qsa_hisparse/hisparse/prefix_cache.py:377-383 | Refused during a restore; otherwise every request reader is closed, only capture readers stay open, and without captures nothing stays retired |
| `PrefixMatches.QSAHostPrefixCache.Checkpoint` | src/sglang_qsa_hisparse/hisparse/prefix_cache.py:309-346 | A capture leaves the owners of all readers as they were |
| `Slots.InsertedAscends` | src/sglang_qsa_hisparse/hisparse/slots.py:135-140 | A returned slot keeps the free list sorted |
| `Slots.QSAHiSparseSlots.constructor` | src/sglang_qsa_hisparse/hisparse/slots.py:19-37 | All slots free, none active |
| `Slots.QSAHiSparseSlots.Acquire` | src/sglang_qsa_hisparse/hisparse/slots.py:45-63 | Succeeds exactly for a real, newer generation of an idle row with staging unowned and a slot free, and takes the lowest slot; refused without a change |
| `Slots.QSAHiSparseSlots.StagingSlice` | src/sglang_qsa_hisparse/hisparse/slots.py:71-78 | Granted exactly to the staging owner while it prefills or copies, for positions within one context; the range lies inside the staging area |
| `Slots.QSAHiSparseSlots.StagingAdjoins` | src/sglang_qsa_hisparse/hisparse/slots.py:71-78 | Ranges of adjoining positions adjoin, and position 0 is the first row of the staging area: so the range of every position is fixed |
| `Slots.QSAHiSparseSlots.RequiresIff` | src/sglang_qsa_hisparse/hisparse/slots.py:65-69 | A lease passes exactly if it is the active one of its row, in one of the phases asked for |
| `Slots.QSAHiSparseSlots.RingWriteLocation` | src/sglang_qsa_hisparse/hisparse/slots.py:85-89 | Given exactly for an active lease in decode and a length within capacity; a member row of the lease ring, never its padding row |
| `Slots.QSAHiSparseSlots.RingHoldsBlock` | src/sglang_qsa_hisparse/hisparse/slots.py:85-89 | The tokens of one block are written to its four member rows in order from the first; two lengths share a row if and only if they are equal modulo 4 |
| `Slots.QSAHiSparseSlots.RingsDisjoint` | src/sglang_qsa_hisparse/hisparse/slots.py:71-89 | Rings of different active leases are disjoint from each other and from staging and lie inside the pool, which ends with the last ring |
| `Slots.QSAHiSparseSlots.CommittedIsStale` | src/sglang_qsa_hisparse/hisparse/slots.py:65-69 | A committed lease never passes require again, whatever its row holds later |
| `Slots.QSAHiSparseSlots.OnePrefill` | src/sglang_qsa_hisparse/hisparse/slots.py:45-63 | In every reachable state at most one lease prefills or copies |
| `Slots.QSAHiSparseSlots.BeginHandoff` | src/sglang_qsa_hisparse/hisparse/slots.py:91-95 | Only the prefill owner starts copying |
| `Slots.QSAHiSparseSlots.FinishHandoff` | src/sglang_qsa_hisparse/hisparse/slots.py:97-104 | Staging is given up only after the completion event |
| `Slots.QSAHiSparseSlots.AdmitDecode` | src/sglang_qsa_hisparse/hisparse/slots.py:106-109 | Only a host-ready lease is admitted |
| `Slots.QSAHiSparseSlots.MarkFailed` | src/sglang_qsa_hisparse/hisparse/runtime.py:611-634 | Marking a lease failed gives nothing back |
| `Slots.QSAHiSparseSlots.Drain` | src/sglang_qsa_hisparse/hisparse/slots.py:111-127 | Drained exactly when every event was given and waited for; a failing wait keeps lease and staging |
| `Slots.QSAHiSparseSlots.LogicalFlush` | src/sglang_qsa_hisparse/hisparse/slots.py:129-133 | Only a drained lease, outside a free group |
| `Slots.QSAHiSparseSlots.CommitRelease` | src/sglang_qsa_hisparse/hisparse/slots.py:135-140 | A slot returns only after drain, then logical flush; active and free slots still partition all slots |
| `Coordinator.RaisesEverywhere` | src/sglang_qsa_hisparse/hisparse/coordinator.py:60-107 | For any number of ranks and any event timings, all ranks raise or none does |
| `Coordinator.RoundAgrees` | src/sglang_qsa_hisparse/hisparse/coordinator.py:60-107 | All ranks admit the same leases in the same order, each ready on every rank, and none before the initial target is ready everywhere; queues stay equal |
| `Coordinator.TakesAllReady` | src/sglang_qsa_hisparse/hisparse/coordinator.py:60-107 | A list that is taken stops only at a lease some rank does not have ready |
| `Coordinator.AdmitsLongestReady` | src/sglang_qsa_hisparse/hisparse/coordinator.py:88-107 | A round over the events of all ranks: if none differs, what is admitted is exactly the longest prefix of the queue whose events are done on every rank, unless the rank still waits and that prefix is shorter than the target |
| `Coordinator.MeetingKeeps` | src/sglang_qsa_hisparse/hisparse/coordinator.py:39-107 | Parks and a round keep all ranks alike and every admitted or queued lease admitted or queued once |
| `Coordinator.RanksStayAlike` | src/sglang_qsa_hisparse/hisparse/coordinator.py:39-107 | Over every run of rounds with parks in between, none of which raised: queue, waiting flag and target are equal on all ranks throughout, all have admitted the same leases in the same order, none twice, and none before the initial target was reached |
| `Coordinator.QSAHiSparseCoordinator.constructor` | src/sglang_qsa_hisparse/hisparse/coordinator.py:14-30 | The initial target is the accepted setting, 1 meaning 2 |
| `Coordinator.QSAHiSparseCoordinator.Park` | src/sglang_qsa_hisparse/hisparse/coordinator.py:39-52 | A parked lease joins the end of the queue |
| `Coordinator.QSAHiSparseCoordinator.CastVote` | src/sglang_qsa_hisparse/hisparse/coordinator.py:60-107 | The vote counts the longest prefix of the queue whose events completed; there is none exactly if the round gets to a lease that is not host-ready |
| `Coordinator.QSAHiSparseCoordinator.Collect` | src/sglang_qsa_hisparse/hisparse/coordinator.py:60-107 | Raises exactly if something is queued on some rank and a vote differs from the rank in leases or target; otherwise takes the longest prefix that every vote has ready, unless it waits and that is shorter than the target; the new queue is what is left, and having taken it waits no more |
| `StableTopK.RankedIs` | src/sglang_qsa_hisparse/kernels/qsa_topk.py:46-50 | An entry ranked a-th by the stable sort has exactly the first a entries better than it |
| `StableTopK.ValidFirst` | src/sglang_qsa_hisparse/kernels/qsa_topk.py:46-50 | Valid entries, minus infinity included, rank before padding |
| `StableTopK.BestSize` | src/sglang_qsa_hisparse/kernels/qsa_topk.py:30-57 | There are min(topk, valid) best indices |
| `StableTopK.SelectedAreBest` | src/sglang_qsa_hisparse/kernels/qsa_topk.py:50-52 | The selected indices below the sentinel are exactly the best ones |
| `StableTopK.SortedSelection` | src/sglang_qsa_hisparse/kernels/qsa_topk.py:52-56 | Sorting puts them first, ascending, each once, sentinels after them |
| `StableTopK.TopKRow` | src/sglang_qsa_hisparse/kernels/qsa_topk.py:30-57 | A row lists exactly its best relative indices by (score descending, index ascending), ascending, then -1 |
| `StableTopK.TileRows` | src/sglang_qsa_hisparse/kernels/qsa_topk.py:17-25 | A tile has at least one row, so the tile loop ends, at most the rows there are, and is the largest that fits the byte bound if one row does |
| `StableTopK.StableTopK` | src/sglang_qsa_hisparse/kernels/qsa_topk.py:30-57 | Every row has its own result whatever the tile size, and no tile has more rows than fit the byte bound |
| `StableTopK.OneList` | src/sglang_qsa_hisparse/kernels/qsa_topk.py:30-57 | The listing of a set is unique |
| `StableTopK.PaddingIrrelevant` | src/sglang_qsa_hisparse/kernels/qsa_topk.py:30-57 | Rows of any widths with equal valid intervals have equal results |
| `StableAlign.SearchSortedIs` | src/sglang_qsa_hisparse/kernels/stable_align.py:29-32 | searchsorted splits a sorted sequence at the value, on the side asked for |
| `StableAlign.Placement.InBucket` | src/sglang_qsa_hisparse/kernels/stable_align.py:29-33 | The prefix differences delimit exactly the ranks of each bucket |
| `StableAlign.Placement.PaddedBounds` | src/sglang_qsa_hisparse/kernels/stable_align.py:33-34 | Padding rounds each bucket up to whole blocks and by less than a block |
| `StableAlign.Placement.Fits` | src/sglang_qsa_hisparse/kernels/stable_align.py:33-36 | The padded buckets fit both bounds on capacity |
| `StableAlign.Placement.CapacityIsLesser` | src/sglang_qsa_hisparse/kernels/stable_align.py:23-28 | The capacity is the smaller of its two bounds |
| `StableAlign.Placement.TotalFits` | src/sglang_qsa_hisparse/kernels/stable_align.py:23-36 | The padded total is within capacity in both branches |
| `StableAlign.Placement.PositionsGrow` | src/sglang_qsa_hisparse/kernels/stable_align.py:35-37 | Positions are strictly increasing in rank and within the padded total |
| `StableAlign.Placement.BlockOfBucket` | src/sglang_qsa_hisparse/kernels/stable_align.py:43-53 | Every position of a bucket lies in a block marked with its expert |
| `StableAlign.Align` | src/sglang_qsa_hisparse/kernels/stable_align.py:21-55 | The scatter fills capacity with each pair at its position and the pair count elsewhere, and marks each block |
| `StableAlign.PlacedOnce` | src/sglang_qsa_hisparse/kernels/stable_align.py:21-55 | Every pair is placed exactly once, within the padded total |
| `StableAlign.BlockHoldsItsExpert` | src/sglang_qsa_hisparse/kernels/stable_align.py:37-53 | A block holds only pairs of the expert it is marked with |
| `StableAlign.PairsThenPadding` | src/sglang_qsa_hisparse/kernels/stable_align.py:35-42 | Within an expert live pairs come first, in increasing flat index |
| `StableAlign.NothingPastTotal` | src/sglang_qsa_hisparse/kernels/stable_align.py:38-54 | Past the padded total there are only padding and blocks marked -1 |
| `PleRows.CopyRows` | src/sglang_qsa_hisparse/patches/model_compat/qwen4_exp.py:377-392 | Exactly the overlap of shard and rank rows is copied |
| `PleRows.LoadShards` | src/sglang_qsa_hisparse/patches/model_compat/qwen4_exp.py:491-499 | After any shards in any order a rank row is the global row if some shard covers it, else as before |
| `PleRows.CountMissing` | src/sglang_qsa_hisparse/patches/model_compat/qwen4_exp.py:698-707 | The number of rows without a scale |
| `PleRows.LoadScales` | src/sglang_qsa_hisparse/patches/model_compat/qwen4_exp.py:413-438 | The coverage check passes if and only if the shards cover the rank, and then every scale is the global one |
| `PleRows.FullCheckpointCovers` | src/sglang_qsa_hisparse/patches/model_compat/qwen4_exp.py:491-499 | A full set of shards covers the whole vocabulary, for sizes that do not divide evenly too |

## Left out

- 32-bit overflow of the Marlin tile indices; the model uses unbounded integers.
- Marlin data movement below the schedule, the atomic-add path, and the 16-bit reduction (its lock protocol is the same).
- Co-residency and fair scheduling of CTAs: progress is stated as "the highest unfinished CTA can step" and "every step leaves less work".
- FP8 and BF16 rounding, and log2(e) as the constant 1.4426950408: scores are real and the base change is exact. Caches that are not FP8 have scale 1.
- The resolver kernel, the paged allocator and the tensor library's sort, argsort and searchsorted: contracts only.
- Strict-mode byte oracles, event-ledger records (present only as calls that may fail) and wall-clock timing.
- C4Offload.LayerCache.DecodeStep: one layer of one request, since layers and requests share no rows in the eager path; GraphKernels and GraphCompact treat all slots of a batch together.
- GraphReplay.GraphCopies.Replay: that a prepared row's length is the number of tokens its lease has seen is taken from the scheduler; zero-length padding rows are not part of the batch.
- HostPrefix.Cache.Acquire: the cache is one state value in one field, changed by each method; readers and reservations are handles the cache lists while they are open, so aliasing of reader objects is not modelled. The reused_tokens counter and the lock are left out.
- Rollback.Extension.Release: the upstream parts of release_aborted_request and of marking KV released are not part of this model.
- PrefixRequest.PrefixRuntime.Extend: what the model writes in a forward is any device that differs only behind the request's length; other requests may write anything but this request's rows. That requests are given pages, rings and slots of their own is the allocator's.
- PrefixRequest.PrefixRuntime.Checkpoint: namespaces that forbid caching, and requests told to skip it, return before anything is looked up and are not modelled.
- CaptureBytes.CaptureAddsItsReservation: index rows take the same bytes in each group, and each index pool has at least delta / 4 rows.
- PrefixMatches.QSAHostPrefixCache.MatchPrefix: which requests may reuse at all (embeddings, sessions, hidden states, forced misses) is one parameter.
- PleRows.LoadShards: element types and casts, and the switch to row-scaled storage.
- Coordinator.RoundAgrees: queued leases are host-ready, as parking leaves them; a lease that fails before a round makes its rank raise alone.
- StableAlign.Align: the stable sort is given by what it returns.
- Hook activation, manifests, launcher, service tools, evidence runners, scheduler and graph-runner bodies: wiring around upstream code.
- The fixed-order reduction of the channel-mixing kernel: a smaller instance of the stripe reduction.
