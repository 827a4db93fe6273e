# dbpool_postgres: connection pool, result materializer and paired teardown

A Dafny model of the two sequential components of `src/dbpool_postgres.c`:

- **The connection pool.** It keeps 16 (`zDB_POOL_SIZ`) sessions. A free-id stack (`zDBPoolStack`) with a top index (`zDBPoolStackHeader`) hands out slot ids. `zpg_conn_pool_init` fills the stack with `0..15`. `zwrite_db` pops an id, runs one statement on that slot's session, and pushes the id back.
- **The result materializer `zpg_parse_res`.** It turns a raw result of T rows and F columns into one allocated block: a header, T row descriptors, F name pointers, then T·F value pointers. Each pointer refers to text owned by the raw result.
- **The paired teardown `zpg_res_clear`.** It clears the raw handle first, then frees the block. Either one may be absent.

Files:

- `wrappers.dfy`: `Option`, which stands for a pointer that may be NULL.
- `pool.dfy` (module `Pool`): the free list as a value (`Partition`, `Top`, `Popped`, `Pushed`), lemmas about it, and the class `ConnPool`. The class holds the stack array, the top index, the session array and a ghost set of checked-out ids.
- `materialize.dfy` (module `Materialize`): the block layout (`NamesBase`, `RowBase`, `BlockSize`), a per-slot description of the finished block (`SlotAt`, `Image`), readers that follow the block's own pointers (`ReadName`, `ReadValue`), and `ParseRes`, which writes the block in place.
- `teardown.dfy` (module `Teardown`): the ordered release actions, and the class `Resources`. `Resources` records whether each handle and block is live, which handle each block points into, and the trace of releases.

The block is measured in 8-byte words, as on an LP64 target. The header `zPgRes__` is 3 words: the back-reference `p_pgResHd_`, the two 4-byte counts sharing one word, and `fieldNames_.pp_fields`. A row descriptor `zPgResTuple__` is 1 word. So the names start at word `3 + T`, row `j` starts at word `3 + T + F + j*F`, and the block is `3 + T + F + T*F` words long.

`zpg_parse_res` never writes the back-reference `p_pgResHd_`; its callers set it afterwards (lines 274 and 310). `ParseRes` and `Image` therefore leave that word as `Garbage`, the uninitialised content of the allocation.

## Model

| member | source | states |
|---|---|---|
| `Pool.InitialPartition` | src/dbpool_postgres.c:68-71 | the stack `0..n-1` with nothing checked out satisfies the pool invariant |
| `Pool.Capacity` | src/dbpool_postgres.c:35-37 | under the pool invariant, the free ids plus the checked-out ids number exactly the pool size |
| `Pool.AcquireKeepsPartition` | src/dbpool_postgres.c:339-340 | popping a non-empty stack yields an id in range that is not checked out (no double issue); the invariant holds with that id checked out |
| `Pool.ReleaseKeepsPartition` | src/dbpool_postgres.c:353 | pushing a checked-out id back never overflows the stack (`++header` stays below the size), and the invariant holds with the id free again |
| `Pool.LifoReuse` | src/dbpool_postgres.c:339-353 | after releasing ids first to last, the next acquires return them last to first and leave the stack as before |
| `Pool.ConnPool.constructor` | src/dbpool_postgres.c:35-37 | the static pool globals start zeroed: top index 0, stack all 0, every session NULL |
| `Pool.ConnPool.Init` | src/dbpool_postgres.c:66-78 | the process exits iff some connect returns NULL, at the first failing slot, with the stack filled only up to it; otherwise stack = `0..15`, top = 15, every slot holds its session, nothing checked out, invariant established |
| `Pool.ConnPool.Acquire` | src/dbpool_postgres.c:339-340 | on a non-empty stack, returns the top id, decrements the top index, and marks the id checked out; the id was not checked out before |
| `Pool.ConnPool.Release` | src/dbpool_postgres.c:352-354 | stores a checked-out id at the incremented top index and marks it free; the invariant is kept |
| `Pool.ConnPool.WriteDb` | src/dbpool_postgres.c:324-357 | returns 0; runs on the session of the popped id; on success the new raw result is cleared through `ResClear` (the trace gains exactly that `PQclear`, the handle ends released), on failure nothing is released; the id is pushed back on both branches, so stack, top index and checked-out set are as before |
| `Materialize.Image` | src/dbpool_postgres.c:178-198 | the size passed to `zMEM_ALLOC` is exactly where the pointer arithmetic puts the end of the last row's value pointers (`RowBase(T-1) + F`), so the allocation holds every slot the layout addresses; no block (NULL) when there are zero rows |
| `Materialize.RegionsDisjoint` | src/dbpool_postgres.c:178-198 | for any rows `j`, `k` of a result with at least one row: row `j` starts after the name pointers, ends no later than any later row `k` starts, and ends inside the block |
| `Materialize.CellSlot` | src/dbpool_postgres.c:197-201 | slot `RowBase(j) + i` lies inside the block and refers to the value of row `j`, column `i` |
| `Materialize.RoundTrip` | src/dbpool_postgres.c:188-201 | following the block's own pointers gives `tupleCnt`/`fieldCnt`, every field name `fname(i)` and every value `getvalue(j, i)`; the back-reference word is left unwritten |
| `Materialize.ParseRes` | src/dbpool_postgres.c:165-205 | NULL iff zero rows; otherwise a fresh block whose contents equal `Image(raw)` |
| `Materialize.FillRow` | src/dbpool_postgres.c:197-202 | one outer-loop pass: descriptor `j` points at `RowBase(j)`, and row `j`'s value slots are filled, without disturbing what was already written |
| `Teardown.ClearActions` | src/dbpool_postgres.c:213-223 | each present argument is released exactly once, nothing else is released, and clearing the handle comes before freeing the block |
| `Teardown.Resources.ResClear` | src/dbpool_postgres.c:213-223 | appends `ClearActions` to the trace; marks the handle cleared and the block freed; neither is readable afterwards; no live block is left pointing into a cleared handle |
| `Teardown.Resources.AddResult` | src/dbpool_postgres.c:107-109 | an execute call hands over a new live raw result |
| `Teardown.Resources.AddBlock` | src/dbpool_postgres.c:268-274 | a block materialized from a live raw result points into it and is readable |

## Left out

- The pool mutex and the sleep-and-retry wait (src/dbpool_postgres.c:331-337, 342, 352, 354) serve only concurrency. `Acquire` and `WriteDb` are sequential and require a non-empty stack (`header >= 0`). The model does not capture blocking or interleaving between threads.
- libpq calls (`PQconnectdb`, `PQexec`, `PQntuples`, `PQnfields`, `PQfname`, `PQgetvalue`, `PQclear`, ...) are foreign. Their outcomes are parameters: `Init` takes the result of each connect attempt, and `WriteDb` takes the result of the execute call. A raw result is the value `RawResult(names, cells)`. Sessions and handles are opaque numbers.
- `zpg_conn`, `zpg_conn_reset`, `zpg_exec`, `zpg_exec_with_param`, `zpg_prepare`, `zpg_prepare_exec`, `zpg_conn_clear`, `zpg_conn_check` and `zpg_thread_safe_check` each only branch on one libpq status, so they are not modelled.
- `zpg_exec_once` and `zpg_exec_with_param_once` only sequence connect, execute and disconnect. Their assignment of the back-reference after `zpg_parse_res` appears only as `Resources.AddBlock`.
- The header macros `zPRINT_TIME`, `zPRINT_ERR` and `zCHECK_NULL_EXIT` are not modelled: they print to stderr and exit. `fprintf` logging and the empty "write log" branch are not modelled either.
- `zMEM_ALLOC` exits when allocation fails; the model assumes the allocation succeeds.
- `exit(1)` in `zpg_conn_pool_init` is the result `exited`. What `Init` leaves in the pool after an exit describes a process that no longer runs.
- C pointers, aliasing and use-after-free are not expressed directly. The `Resources` state machine stands in for them (live flags, the borrow map and `Readable`), and block slots name the raw result's text instead of holding addresses.
- The block's word layout assumes 8-byte pointers and no padding in `zPgRes__`, as on LP64 targets.
- `zDBPoolStack` and `zDBPoolStackHeader` are `signed short`. Their values stay within `-1..15`, so no wrap-around is modelled. `int` overflow of `j * zFieldCnt` for huge results is not modelled either.
