# RaceCell: a container that exposes half-done writes

This project models the race-detecting cell of the `testbench` crate
(`src/race_cell.rs`). A `RaceCell` holds one logical value twice. One copy,
`local_contents`, is stored inline in the cell. The other, `remote_version`,
is stored in a separately allocated (boxed) atomic slot. A write (`set`)
stores the local copy and then the remote copy as two separate stores. A read
(`get`) loads both copies and reports `Consistent(v)` when they agree and
`Inconsistent` when they do not. So a reader that runs between the two
stores of a writer sees the disagreement. `clone` copies each slot as it
stands, torn or not, into a new cell with its own remote slot.

Modules:

- `RaceCells` (`race_cell.dfy`): the read verdict `Racey`, the atomic slot
  `AtomicSlot` (load/store wrapper), and the class `RaceCell`. The local copy
  is a field of the cell. The remote copy is a separate `AtomicSlot` object
  held in a `const` field, as the `Box` is never replaced. Relaxed loads and
  stores are plain field reads and writes. `StoreLocal` performs only the
  first store of `Set`. It stands for the state a concurrent reader can catch
  between the two stores, which the unit tests reach by storing into
  `local_contents` directly.
- `RaceCellTests` (`race_cell_tests.dfy`): the crate's unit tests as client
  methods, proved for every value instead of one constant.
- `ProtectedTransaction` (`protected_transaction.dfy`): reads and writes
  serialised by an outside lock. A run is the sequence of whole `Set`/`Get`
  operations in the order the lock admitted them. `RunSerialized` executes a
  run on a real cell and is proved against the reference `SerialOutcomes`:
  each read sees the value last written, and no read is `Inconsistent`.

The element type is a generic `T(==)`. The crate restricts it to the
scalar types with std atomic wrappers (`bool`, the fixed-width integers,
`isize`/`usize`, raw pointers); the cell's behaviour does not depend on which.

Frames carry the "reads only" promises: `Get`, `Clone` and
`AtomicSlot.RelaxedLoad` have no `modifies` clause, so they provably change
no slot. `StoreLocal` may modify only the cell itself, so the remote slot
keeps its value.

## Model

| member | source | states |
|---|---|---|
| `RaceCells.Compare` | src/race_cell.rs:111-115 | the verdict is `Consistent` exactly when the two loaded copies are equal, and then carries that common value; otherwise it is `Inconsistent` |
| `RaceCells.AtomicSlot.constructor` | src/race_cell.rs:163-164 | a new slot holds the value it was created with |
| `RaceCells.AtomicSlot.RelaxedLoad` | src/race_cell.rs:166-167 | a load returns the slot's current value and changes nothing |
| `RaceCells.AtomicSlot.RelaxedStore` | src/race_cell.rs:169-170 | a store leaves the slot holding the stored value and changes no other object |
| `RaceCells.RaceCell.constructor` | src/race_cell.rs:92-98 | both copies of a new cell hold the initial value (the cell is coherent), and its remote slot is freshly allocated |
| `RaceCells.RaceCell.FromSlots` | src/race_cell.rs:124-127 | a new cell whose local copy is the first argument and whose freshly allocated remote slot holds the second, even when the two differ |
| `RaceCells.RaceCell.Set` | src/race_cell.rs:100-104 | after a whole write both copies hold the written value, so the cell is coherent; only the cell and its own remote slot change |
| `RaceCells.RaceCell.StoreLocal` | src/race_cell.rs:102 | after the first store of a write the local copy holds the new value and the remote copy keeps its old one |
| `RaceCells.RaceCell.Get` | src/race_cell.rs:106-116 | the read returns `Consistent(local)` if and only if the local copy equals the remote copy, `Inconsistent` otherwise, and modifies nothing |
| `RaceCells.RaceCell.Clone` | src/race_cell.rs:119-128 | the clone is a new cell with a new remote slot whose local and remote copies equal the original's local and remote copies respectively, even when they differ; the original is not modified |
| `RaceCellTests.InitialState` | src/race_cell.rs:247-253 | for every initial value, a new cell holds it in both copies |
| `RaceCellTests.ConsistentRead` | src/race_cell.rs:255-260 | for every initial value, reading a new cell returns `Consistent` of that value |
| `RaceCellTests.InconsistentRead` | src/race_cell.rs:262-268 | for every pair of different values, a cell caught after the local store of a write, with the old value still in the remote copy, reads `Inconsistent` |
| `RaceCellTests.CloneAsIs` | src/race_cell.rs:270-278 | cloning a torn cell gives local copy = the newly stored value, remote copy = the old value, and a remote slot that is not the original's |
| `RaceCellTests.CloneRoundTrip` | src/race_cell.rs:119-128 | with no writer, the clone of a new cell reads back `Consistent` of the initial value |
| `ProtectedTransaction.RunSerialized` | src/race_cell.rs:326-352 | running any sequence of whole writes and reads on a new cell returns exactly the reference outcomes (one per read, each the value last written), and none of them is `Inconsistent` |
| `ProtectedTransaction.LastWrittenWasWritten` | src/race_cell.rs:100-104 | the value held after a run is the initial value or a value some write of the run stored |
| `ProtectedTransaction.ObservedWasWritten` | src/race_cell.rs:343-346 | every read of a serialised run is consistent and sees either the initial value or a value written by the run |
| `ProtectedTransaction.ReadsAfterLastWriteSeeIt` | src/race_cell.rs:343-348 | after the writer's last write of `v`, every following read returns `Consistent(v)`, so a reader waiting for the final value sees it |

## Left out

- Threads, barriers and joins (`concurrent_test_2`, `concurrent_test_3` in `src/lib.rs`): a sequential model cannot start operations simultaneously or propagate a panic. A lock-serialised run is modelled as the sequence of operations the lock admitted.
- The benchmarks (`benchmark`, `concurrent_benchmark` in `src/lib.rs`): wall-clock timing, sleeping, a stop flag polled by a background thread and printing.
- `src/noinline.rs`: call-through wrappers that only prevent inlining and have no behaviour of their own.
- Relaxed memory ordering: loads and stores are sequentially consistent field accesses here.
- `RaceCells.RaceCell.Get`: its two loads happen as one step, so a write that lands between the local load and the remote load is not modelled; the half-write window is modelled only through `StoreLocal`.
- `RaceCells.RaceCell.Clone`: its two loads also happen as one step, so a clone taken while a write lands between its loads (an old local copy with a new remote copy) is not modelled; only a clone of a cell already torn by `StoreLocal` is.
- `RaceCells.RaceCell.Set`: exclusive ownership of the remote slot by its cell is not stated as an invariant. Cells made by the constructor or by `Clone` get a freshly allocated slot, but a client holding two arbitrary cells cannot conclude from the contracts that a `Set` on one leaves the other's remote copy unchanged.
- The `unprotected_race` test's statistic (more than 1% of reads inconsistent): it depends on hardware interleavings, not on the cell's logic.
- The per-type `impl_atomic_data!` expansion and the `AtomicPtr` impl: the element type is a generic `T(==)`, so the closed set of supported scalar types is not enforced.
- The derived `Default` and `Debug` of `RaceCell`, and the derived `Debug` of `Racey` (its derived equality is datatype equality here).
