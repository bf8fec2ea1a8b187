# Traffic intersection admission and process-lifecycle system calls

This project models two independent parts of a teaching kernel (OS/161 1.99) and proves properties of the models in Dafny.

**The traffic intersection** (`traffic.dfy`, module `Traffic`). This is the synchronisation exercise in which simulated vehicles enter and leave a four-way intersection. The shared state is a 4 x 4 matrix `cars_crossing[origin][destination]` counting the vehicles on each path, plus a counter `car_count` bounded by `MAX_CARS = 10`. A vehicle enters only when the intersection is below capacity and `check_intersection` finds it compatible with every vehicle already inside. Two vehicles are compatible when they come from the same direction, when they travel exactly opposite paths, or when they go to different destinations and one of them turns right. The model has two layers:
- a pure layer over the matrix as a value (`Grid`), with the right-turn test, the compatibility relation, the admission test and the matrix sum;
- a class `Intersection`, which keeps the matrix as an `array2<int>` updated in place, together with the counter.

The class invariant `Valid` ties the array to the grid value, keeps every cell non-negative and keeps `carCount` equal to the sum of the 16 cells. The admission invariant `Safe` adds `carCount <= MAX_CARS` and "every two vehicles inside are mutually compatible".

**Process-lifecycle system calls** (`proc.dfy`, module `ProcSyscalls`). These are `sys__exit`, `sys_getpid`, `sys_waitpid` and `sys_fork`, modelled over a class `ProcTable`. The class holds a map from pid to process record. A record holds `p_pid`, `p_pproc`, `p_children`, `p_addrspace` (an opaque token, or none), `p_exitcode` and `exitable`. The table invariant `TableInvariant` says five things:
- every record sits under its own positive pid;
- an exitable record holds no address space;
- every listed child is in the table and names its lister as parent;
- every parent is in the table;
- no two records share an address space.

Every system call keeps this invariant.

## Modelling choices

- **Waiting on a condition variable.** `intersection_before_entry` waits in `while (car_count >= MAX_CARS || !check_intersection(...)) cv_wait(...)`. It is modelled as one evaluation of that guard (`BeforeEntry`). The vehicle enters exactly when the guard is false. Otherwise nothing changes and the result `false` stands for the thread still waiting.
- **Waiting for a child to exit.** `sys_waitpid` waits in `while (exitable == false)`. It is modelled from the point where that wait has ended: a precondition says that when the call reaches the wait, the child is exitable.
- **Collaborator outcomes as parameters.** The outcomes of the collaborators are parameters of the methods, so every combination of success and failure is covered. The collaborators are `proc_create_runprogram` (a fresh positive pid, or NULL), the two `kmalloc` calls, `as_copy` (a fresh address space, or an error number), `procarray_add`, `thread_fork` and `copyout`.
- **The exit-status encoding.** `_MKWAIT_EXIT` is defined in a header that is not part of this model. It is the function-valued constant `ProcTable.encodeExit`, fixed when the table is built, and every property holds for any encoding.
- **`proc_destroy`.** Its body is not part of this model, so the model takes two positions:
  - In `sys__exit` (proc_syscalls.c:75) the record is assumed to stay in the table as a zombie. This is what `sys_waitpid` needs, because it reads the exited record afterwards (proc_syscalls.c:137-147).
  - When `sys_fork` unwinds after `thread_fork` fails (proc_syscalls.c:238), `proc_destroy(childproc)` is assumed to remove the child's record and to drop the child from its parent's child list (`Destroy`). Nothing in the modelled file shows this. It is an assumption about `proc_destroy`. `RemovalAloneBreaksInvariant` shows why it is needed: if the record were only removed after `procarray_add` had listed it, the parent would list a pid that has no record, and the table invariant would fail.
- **Error numbers** are symbolic (`EINVAL`, `ECHILD`, `ENOMEM`, `EFAULT`). Their numeric values are in a header that is not part of this model.
- **Direction** is an integer 0..3 numbered as the simulation's enumeration: north 0, east 1, south 2, west 3. The C code casts `(Direction)i` in the same way.

The model follows the code where it differs from POSIX `waitpid` and `fork`:
- `sys_waitpid` checks only `options` and then membership in the caller's children (`ECHILD`). It has no separate "no such process" or "invalid pointer" check; a bad status pointer surfaces as the `copyout` error after the wait.
- `sys_waitpid` does not remove the reaped record.
- The `thread_fork` failure returns `ENOMEM` rather than `thread_fork`'s own error.

## Model

| member | source | states |
|---|---|---|
| `Traffic.RightTurnsExactly` | os161-1.99/kern/synchprobs/traffic_synch.c:183-189 | `is_right_turn` holds exactly for south→east, north→west, east→north and west→south |
| `Traffic.IsRightTurn` | os161-1.99/kern/synchprobs/traffic_synch.c:183-189 | the four-case test holds exactly for the paths whose destination is one step counter-clockwise of the origin (`RightOf`, an independent geometric definition) |
| `Traffic.CompatibleSymmetric` | os161-1.99/kern/synchprobs/traffic_synch.c:167-171 | the compatibility test gives the same answer with the inside vehicle and the newcomer swapped |
| `Traffic.Compatible` | os161-1.99/kern/synchprobs/traffic_synch.c:167-171 | vehicles from the same origin are always compatible; vehicles from different origins bound for the same destination never are |
| `Traffic.CompatibleExamples` | os161-1.99/kern/synchprobs/traffic_synch.c:167-171 | opposite straight paths and opposite left/right turns are compatible; crossing straight paths and two paths into the same destination are not |
| `Traffic.EmptyGrid` | os161-1.99/kern/synchprobs/traffic_synch.c:27 | the initial matrix is 4 x 4 with every cell zero |
| `Traffic.Bump` | os161-1.99/kern/synchprobs/traffic_synch.c:205 | changing one cell by `k` changes that cell by `k` and leaves the other 15 cells as they were |
| `Traffic.TotalBump` | os161-1.99/kern/synchprobs/traffic_synch.c:205-206 | changing one cell by `k` changes the sum of all cells by `k`, which is why `car_count` stays equal to the sum |
| `Traffic.EmptyTotal` | os161-1.99/kern/synchprobs/traffic_synch.c:27-32 | the initial matrix sums to the initial `car_count` of 0 |
| `Traffic.EmptyAdmitsAll` | os161-1.99/kern/synchprobs/traffic_synch.c:162-176 | when every cell is zero the admission test holds for every path |
| `Traffic.AdmitKeepsCompatible` | os161-1.99/kern/synchprobs/traffic_synch.c:120-123 | when the vehicles inside are pairwise compatible, the admission test holds if and only if adding the newcomer keeps them pairwise compatible |
| `Traffic.ExitKeepsCompatible` | os161-1.99/kern/synchprobs/traffic_synch.c:146-147 | a vehicle leaving keeps the remaining vehicles pairwise compatible |
| `Traffic.ExitUndoesAdmit` | os161-1.99/kern/synchprobs/traffic_synch.c:146 | incrementing and then decrementing the same cell restores the matrix |
| `Traffic.Intersection.constructor` | os161-1.99/kern/synchprobs/traffic_synch.c:27-32 | the intersection starts empty with `car_count` 0, and the admission invariant holds |
| `Traffic.Intersection.CheckIntersection` | os161-1.99/kern/synchprobs/traffic_synch.c:159-177 | the nested loop with early return yields true if and only if every occupied cell is compatible with the newcomer |
| `Traffic.Intersection.AddCar` | os161-1.99/kern/synchprobs/traffic_synch.c:200-208 | given `car_count <= MAX_CARS`, exactly the cell (origin, destination) and `car_count` grow by one, and the counter stays the sum of the matrix |
| `Traffic.Intersection.BeforeEntry` | os161-1.99/kern/synchprobs/traffic_synch.c:113-125 | the vehicle enters if and only if `car_count < MAX_CARS` and the admission test holds; capacity and pairwise compatibility are preserved |
| `Traffic.Intersection.AfterExit` | os161-1.99/kern/synchprobs/traffic_synch.c:139-152 | the cell and `car_count` drop by one, the counter stays the sum, and capacity and pairwise compatibility are preserved |
| `Traffic.EnterAndLeave` | os161-1.99/kern/synchprobs/traffic_synch.c:113-152 | an admitted vehicle that then leaves restores the matrix and the counter |
| `Traffic.FirstVehicleEnters` | os161-1.99/kern/synchprobs/traffic_synch.c:113-125 | at the empty intersection the first vehicle enters whatever its path |
| `ProcSyscalls.Link` | os161-1.99/kern/syscall/proc_syscalls.c:222 | `procarray_add` puts the child in the parent's child list and adds no record |
| `ProcSyscalls.Destroy` | os161-1.99/kern/syscall/proc_syscalls.c:238 | destroying the child's record removes exactly its pid from the table |
| `ProcSyscalls.RemovalAloneBreaksInvariant` | os161-1.99/kern/syscall/proc_syscalls.c:222-238 | after `procarray_add`, removing only the child's record leaves the parent listing a pid with no record, which breaks the table invariant; this is why `Destroy` must also unlink |
| `ProcSyscalls.DestroyUndoesCreate` | os161-1.99/kern/syscall/proc_syscalls.c:181-239 | unwinding a fork at any step restores the table as it was, including the parent's child list |
| `ProcSyscalls.UpdateKeepsInvariant` | os161-1.99/kern/syscall/proc_syscalls.c:43-64 | detaching the address space and then writing the exit code and `exitable` keeps the table invariant at every step |
| `ProcSyscalls.ForkKeepsInvariant` | os161-1.99/kern/syscall/proc_syscalls.c:215-226 | a child with its own fresh address space, linked to the caller, keeps the table invariant |
| `ProcSyscalls.CreateChildAsWritten` | os161-1.99/kern/syscall/proc_syscalls.c:177-184 | as written, record creation never returns ENOMEM: a NULL record faults, and it continues exactly with a positive pid |
| `ProcSyscalls.CreateChild` | os161-1.99/kern/syscall/proc_syscalls.c:177-184 | with the NULL test first, record creation yields ENOMEM exactly when `proc_create_runprogram` fails |
| `ProcSyscalls.CreateFailurePanicsAsWritten` | os161-1.99/kern/syscall/proc_syscalls.c:177-184 | the as-written and the intended step differ only on a failed creation: the one faults where the other returns ENOMEM |
| `ProcSyscalls.ProcTable.GetPid` | os161-1.99/kern/syscall/proc_syscalls.c:85-98 | returns 0 with `*retval` equal to the caller's pid |
| `ProcSyscalls.ProcTable.Detach` | os161-1.99/kern/syscall/proc_syscalls.c:43-53 | requires an address space; clears it and changes nothing else, keeping the table invariant |
| `ProcSyscalls.ProcTable.Publish` | os161-1.99/kern/syscall/proc_syscalls.c:63-64 | requires the address space to be already detached; stores `_MKWAIT_EXIT(exitcode)` and sets `exitable`, changing nothing else and keeping the table invariant |
| `ProcSyscalls.ProcTable.Exit` | os161-1.99/kern/syscall/proc_syscalls.c:29-81 | `Detach` then `Publish`: requires an address space; clears it, stores `_MKWAIT_EXIT(exitcode)`, sets `exitable`, and changes no other record. The precondition of `Publish` puts the order in the contracts |
| `ProcSyscalls.ProcTable.WaitPid` | os161-1.99/kern/syscall/proc_syscalls.c:104-160 | `options != 0` gives EINVAL first; a pid outside the caller's children gives ECHILD; otherwise, once the child is exitable, it gives the `copyout` error or returns the pid and delivers the stored exit status; the table never changes |
| `ProcSyscalls.ProcTable.Fork` | os161-1.99/kern/syscall/proc_syscalls.c:164-247 | each failure returns ENOMEM or the `as_copy` error and leaves the table unchanged; success returns the child's pid, the child's parent is the caller, it has its own copied address space, and it is in the caller's child list exactly when `procarray_add` succeeded |
| `ProcSyscalls.ForkExitWait` | os161-1.99/kern/syscall/proc_syscalls.c:63-158 | after a successful fork and the child's exit with code `c`, the parent's waitpid returns the child's pid and delivers exactly `_MKWAIT_EXIT(c)` |

## Findings

| source | as written | input that shows it | evidently intended | confidence | as-written member | corrected member |
|---|---|---|---|---|---|---|
| os161-1.99/kern/syscall/proc_syscalls.c:177-184 | `KASSERT(childproc->p_pid > 0)` reads through `childproc` before the test `childproc == NULL`. | `proc_create_runprogram` returns NULL (out of memory or out of pids). | Test for NULL first and return ENOMEM. | not executed; high | `ProcSyscalls.CreateFailurePanicsAsWritten` | `ProcSyscalls.CreateChild` |

`ProcTable.Fork` uses the corrected step. The as-written step is `CreateChildAsWritten`.

## Left out

- Locks and condition variables (`lock_acquire`, `cv_wait`, `cv_signal`, `cv_broadcast`) are left out. The model is sequential: each operation is atomic, and blocking is a guard.
- `intersection_after_exit` updates the shared counters under `exitLock` instead of `intersectionLock`. It also signals `intersectionCv` without holding its lock. Both are races in concurrent execution, which a sequential model cannot show.
- `intersection_sync_init` and `intersection_sync_cleanup` only create and destroy synchronisation primitives.
- Traffic.Intersection.AfterExit: requires the vehicle's cell to be positive. The simulation driver calls it only for a vehicle that entered. The C code does not check this, and on an empty cell it would store -1, which `check_intersection` then treats as occupied.
- The 32-bit width of the C counters is not modelled. With the capacity bound, no count leaves 0..10.
- Address-space internals (`as_copy`, `as_destroy`, `as_deactivate`, `curproc_setas`) are left out. An address space is an opaque token.
- Thread management (`thread_fork`, `thread_exit`, `proc_remthread`, `enter_forked_process`) is left out. Only the success or failure of `thread_fork` is a parameter.
- ProcSyscalls.Destroy: the unlinking of the child from its parent's child list is an assumption about `proc_destroy`, whose body is not part of this model. If `proc_destroy` did not unlink, a `thread_fork` failure after a successful `procarray_add` would leave a dangling child pid (`RemovalAloneBreaksInvariant`).
- ProcSyscalls.ProcTable.Fork: its "every failure leaves the table unchanged" holds under the `Destroy` assumption above. The case where `proc_destroy` does not unlink is not a `ForkEnv` outcome.
- The effects of `proc_destroy` in `sys__exit` are left out: reclaiming orphan records, detaching the exiting process's own children, and waking the kernel menu. The model keeps every exited record as a zombie.
- `kmalloc`/`kfree` bookkeeping and the building of `forkname` with `strcpy`/`strcat` are left out. That includes two leaks: the `kmalloc`'d address-space struct that `as_copy` overwrites, and the trap frame on the `as_copy` failure path. It also includes the unchecked `kmalloc` of `data` at proc_syscalls.c:229.
- The trap-frame copy and the trap-frame-size assertion are left out.
- `copyout` is reduced to its outcome. A failed copy delivers nothing.
- Pid allocation, `proc_create_runprogram`, `if_procchild` and `proc_get_by_pid` are abstract. Creation yields a fresh positive pid, `if_procchild` is membership in the caller's child list, and lookup is the map.
- The non-OPT_A2 branches and the DEBUG/kprintf logging are left out.
- `execv` is not part of this model. It is not in the modelled file.
