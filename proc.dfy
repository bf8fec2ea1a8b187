/**
 * Process-lifecycle system calls: fork, _exit, waitpid and getpid, over a
 * table that maps each process identifier to its process record.
 *
 * The kernel's collaborators (record creation, memory allocation, address
 * space copying, child-list insertion, thread creation, copying to user
 * memory) are not modelled; each call's outcome is a parameter, so every
 * combination of successes and failures is covered.
 */
module ProcSyscalls {

  datatype Option<T> = None | Some(value: T)

  /** The error numbers these calls return. */
  datatype Errno = EINVAL | ECHILD | ENOMEM | EFAULT

  /** A system call's result: 0 with the value stored through `retval`, or an error number. */
  datatype SysResult = Ok(retval: int) | Err(errno: Errno)

  type Pid = int

  /** An address space as an opaque token: distinct tokens are distinct spaces. */
  datatype AddrSpace = AddrSpace(id: nat)

  /** A process record: p_pid, p_pproc, p_children, p_addrspace, p_exitcode and exitable. */
  datatype Proc = Proc(
    pid: Pid,
    parent: Option<Pid>,
    children: seq<Pid>,
    addrspace: Option<AddrSpace>,
    exitcode: int,
    exitable: bool)

  type Table = map<Pid, Proc>

  /**
   * What every reachable table satisfies: each record sits under its own
   * positive pid; an exited record no longer holds an address space; a child
   * listed by a process is in the table and names that process as parent; a
   * parent is in the table; no two records share an address space.
   */
  ghost predicate TableInvariant(t: Table)
  {
    && (forall p | p in t :: p > 0 && t[p].pid == p)
    && (forall p | p in t :: t[p].exitable ==> t[p].addrspace.None?)
    && (forall p, c | p in t && c in t[p].children :: c in t && t[c].parent == Some(p))
    && (forall p | p in t && t[p].parent.Some? :: t[p].parent.value in t)
    && (forall p, q | p in t && q in t && p != q && t[p].addrspace.Some? :: t[q].addrspace != t[p].addrspace)
  }

  /** The record a successful proc_create_runprogram yields: no parent, no children, no address space. */
  function NewRecord(pid: Pid): Proc
  {
    Proc(pid, None, [], None, 0, false)
  }

  /** `s` with every occurrence of `x` removed. */
  function Without(s: seq<Pid>, x: Pid): (r: seq<Pid>)
    ensures forall y :: y in r <==> y in s && y != x
    ensures |r| <= |s|
  {
    if s == [] then []
    else (if s[0] == x then [] else [s[0]]) + Without(s[1..], x)
  }

  lemma {:induction false} WithoutAbsent(s: seq<Pid>, x: Pid)
    requires x !in s
    ensures Without(s, x) == s
  {
    if s != [] {
      WithoutAbsent(s[1..], x);
    }
  }

  lemma {:induction false} WithoutAppended(s: seq<Pid>, x: Pid)
    requires x !in s
    ensures Without(s + [x], x) == s
  {
    if s == [] {
      assert [x][1..] == [];
    } else {
      assert (s + [x])[1..] == s[1..] + [x];
      WithoutAppended(s[1..], x);
    }
  }

  /** procarray_add: `child` appended to the child list of `parent`. */
  function Link(t: Table, parent: Pid, child: Pid): (r: Table)
    requires parent in t
    ensures r.Keys == t.Keys && child in r[parent].children
  {
    t[parent := t[parent].(children := t[parent].children + [child])]
  }

  /**
   * proc_destroy as a fork failure uses it: the record leaves the table and
   * the child list of its parent.
   */
  function Destroy(t: Table, child: Pid): (r: Table)
    ensures r.Keys == t.Keys - {child}
  {
    var rest := t - {child};
    if child in t && t[child].parent.Some? && t[child].parent.value in rest then
      var p := t[child].parent.value;
      rest[p := rest[p].(children := Without(rest[p].children, child))]
    else
      rest
  }

  /**
   * Unwinding a partly built fork restores the table: destroying a record
   * that was added under a fresh pid, and possibly linked to its parent,
   * gives back the table as it was before the record was created.
   */
  lemma DestroyUndoesCreate(t: Table, child: Pid, rec: Proc, linked: bool)
    requires TableInvariant(t) && child !in t
    requires rec.parent.Some? ==> rec.parent.value in t
    requires linked ==> rec.parent.Some?
    ensures Destroy(if linked then Link(t[child := rec], rec.parent.value, child) else t[child := rec], child) == t
  {
    var t1 := t[child := rec];
    var t2 := if linked then Link(t1, rec.parent.value, child) else t1;
    var r := Destroy(t2, child);
    if rec.parent.Some? {
      var p := rec.parent.value;
      assert child !in t[p].children;
      if linked {
        WithoutAppended(t[p].children, child);
      } else {
        WithoutAbsent(t[p].children, child);
      }
      assert r[p] == t[p];
    }
    assert forall q | q in t :: r[q] == t[q];
  }

  /**
   * Why Destroy also unlinks: once procarray_add has listed the child,
   * removing only its record leaves the parent listing a pid that has no
   * record, which the table invariant forbids.
   */
  lemma RemovalAloneBreaksInvariant(t: Table, cur: Pid, child: Pid, rec: Proc)
    requires cur in t && child != cur
    ensures var r := Link(t[child := rec], cur, child) - {child};
      cur in r && child in r[cur].children && child !in r && !TableInvariant(r)
  {
  }

  /**
   * Changing a record's exit fields, or detaching its address space, keeps
   * the invariant as long as an exitable record holds no address space.
   */
  lemma UpdateKeepsInvariant(t: Table, p: Pid, rec: Proc)
    requires TableInvariant(t) && p in t
    requires rec.pid == p && rec.parent == t[p].parent && rec.children == t[p].children
    requires rec.addrspace == t[p].addrspace || rec.addrspace.None?
    requires rec.exitable ==> rec.addrspace.None?
    ensures TableInvariant(t[p := rec])
  {
  }

  /** The table a successful fork leaves satisfies the invariant. */
  lemma ForkKeepsInvariant(t: Table, cur: Pid, child: Pid, space: AddrSpace, linked: bool)
    requires TableInvariant(t) && cur in t && t[cur].addrspace.Some?
    requires child > 0 && child !in t
    requires forall p | p in t :: t[p].addrspace != Some(space)
    ensures var t1 := t[child := Proc(child, Some(cur), [], Some(space), 0, false)];
      TableInvariant(if linked then Link(t1, cur, child) else t1)
  {
  }

  /** A step of sys_fork: carry on with a value, return an error, or crash the kernel. */
  datatype Step<T> = Continue(value: T) | Return(errno: Errno) | Panic

  /**
   * The record-creation step of sys_fork as the source writes it: the
   * assertion on the new record's pid reads through the record before the
   * record is tested for NULL, so a failed creation faults instead of
   * returning ENOMEM.
   */
  function CreateChildAsWritten(created: Option<Pid>): (s: Step<Pid>)
    ensures s != Return(ENOMEM)
    ensures created.None? ==> s == Panic
    ensures s.Continue? <==> created.Some? && created.value > 0
  {
    match created
    case None => Panic
    case Some(pid) => if pid > 0 then Continue(pid) else Panic
  }

  /**
   * The step as written and as intended part only on a failed creation:
   * there the one faults where the other returns ENOMEM.
   */
  lemma CreateFailurePanicsAsWritten()
    ensures CreateChildAsWritten(None) == Panic && CreateChild(None) == Return(ENOMEM)
    ensures forall created: Option<Pid> | created.Some? :: CreateChildAsWritten(created) == CreateChild(created)
  {
  }

  /** The record-creation step with the NULL test first, as intended. */
  function CreateChild(created: Option<Pid>): (s: Step<Pid>)
    ensures s == Return(ENOMEM) <==> created.None?
    ensures s.Continue? <==> created.Some? && created.value > 0
    ensures s.Continue? ==> s.value == created.value
  {
    match created
    case None => Return(ENOMEM)
    case Some(pid) => if pid > 0 then Continue(pid) else Panic
  }

  /** The outcome of as_copy: a new address space, or an error number. */
  datatype CopyResult = Copied(space: AddrSpace) | CopyFailed(errno: Errno)

  /** The outcomes of the collaborators sys_fork calls, in call order. */
  datatype ForkEnv = ForkEnv(
    newPid: Option<Pid>,
    spaceAllocated: bool,
    frameAllocated: bool,
    copy: CopyResult,
    childAdded: bool,
    threadStarted: bool)

  /** The collaborators hand out a pid and an address space that nothing in the table uses. */
  ghost predicate FreshFor(t: Table, env: ForkEnv)
  {
    && (env.newPid.Some? ==> env.newPid.value > 0 && env.newPid.value !in t)
    && (env.copy.Copied? ==> forall p | p in t :: t[p].addrspace != Some(env.copy.space))
  }

  /**
   * The process table with the system calls that act on it. `encodeExit` is
   * the wait-status encoding of an exit code, whose definition this model
   * leaves open: every property below holds for any encoding.
   */
  class ProcTable {
    var procs: Table
    const encodeExit: int -> int

    ghost predicate Valid()
      reads this
    {
      TableInvariant(procs)
    }

    /** A table holding one running process without a parent. */
    constructor (first: Pid, space: AddrSpace, encodeExit: int -> int)
      requires first > 0
      ensures Valid() && this.encodeExit == encodeExit
      ensures procs == map[first := Proc(first, None, [], Some(space), 0, false)]
    {
      procs := map[first := Proc(first, None, [], Some(space), 0, false)];
      this.encodeExit := encodeExit;
    }

    /** sys_getpid: returns 0 with the caller's pid. */
    method GetPid(cur: Pid) returns (r: SysResult)
      requires Valid() && cur in procs
      ensures r == Ok(cur)
    {
      r := Ok(procs[cur].pid);
    }

    /**
     * First half of sys__exit: the caller's address space is detached and
     * nothing else in the table changes.
     */
    method Detach(cur: Pid)
      requires Valid() && cur in procs && procs[cur].addrspace.Some?
      modifies this
      ensures Valid()
      ensures procs == old(procs)[cur := old(procs)[cur].(addrspace := None)]
    {
      UpdateKeepsInvariant(procs, cur, procs[cur].(addrspace := None));
      procs := procs[cur := procs[cur].(addrspace := None)];
    }

    /**
     * Second half of sys__exit: the encoded exit code is stored and the
     * record marked exitable. It may only run once the address space has
     * been detached, so a parent never sees an exitable child that still
     * holds one.
     */
    method Publish(cur: Pid, exitcode: int)
      requires Valid() && cur in procs && procs[cur].addrspace.None?
      modifies this
      ensures Valid()
      ensures procs == old(procs)[cur := old(procs)[cur].(
        exitcode := encodeExit(exitcode), exitable := true)]
    {
      UpdateKeepsInvariant(procs, cur, procs[cur].(exitcode := encodeExit(exitcode)));
      procs := procs[cur := procs[cur].(exitcode := encodeExit(exitcode))];
      UpdateKeepsInvariant(procs, cur, procs[cur].(exitable := true));
      procs := procs[cur := procs[cur].(exitable := true)];
    }

    /**
     * sys__exit: Detach, then Publish. The record stays in the table for
     * its parent's waitpid.
     */
    method Exit(cur: Pid, exitcode: int)
      requires Valid() && cur in procs && procs[cur].addrspace.Some?
      modifies this
      ensures Valid()
      ensures procs == old(procs)[cur := old(procs)[cur].(
        addrspace := None, exitcode := encodeExit(exitcode), exitable := true)]
    {
      Detach(cur);
      Publish(cur, exitcode);
    }

    /**
     * sys_waitpid, from the point where its wait has ended: when the call
     * reaches the wait for a child, it returns only once that child is
     * exitable, which the second precondition states. `status` is what is
     * copied out to the caller, None when nothing is.
     */
    method WaitPid(cur: Pid, pid: Pid, options: int, copyoutError: Option<Errno>)
      returns (r: SysResult, status: Option<int>)
      requires Valid() && cur in procs
      requires options == 0 && pid in procs[cur].children ==> pid in procs && procs[pid].exitable
      ensures options != 0 ==> r == Err(EINVAL) && status == None
      ensures options == 0 && pid !in procs[cur].children ==> r == Err(ECHILD) && status == None
      ensures options == 0 && pid in procs[cur].children && copyoutError.Some? ==>
        r == Err(copyoutError.value) && status == None
      ensures options == 0 && pid in procs[cur].children && copyoutError.None? ==>
        r == Ok(pid) && status == Some(procs[pid].exitcode)
    {
      if options != 0 {
        return Err(EINVAL), None;
      }
      var validWait := pid in procs[cur].children;
      if !validWait {
        return Err(ECHILD), None;
      }
      var waitproc := procs[pid];
      var exitstatus := waitproc.exitcode;
      if copyoutError.Some? {
        return Err(copyoutError.value), None;
      }
      return Ok(pid), Some(exitstatus);
    }

    /**
     * sys_fork: creates the child's record, gives it a copy of the caller's
     * address space, links it to the caller and starts its thread. Every
     * failure unwinds what was built and leaves the table as it was.
     */
    method Fork(cur: Pid, env: ForkEnv) returns (r: SysResult)
      requires Valid() && cur in procs && procs[cur].addrspace.Some?
      requires FreshFor(procs, env)
      modifies this
      ensures Valid()
      ensures env.newPid.None? ==> r == Err(ENOMEM)
      ensures env.newPid.Some? && !(env.spaceAllocated && env.frameAllocated) ==> r == Err(ENOMEM)
      ensures env.newPid.Some? && env.spaceAllocated && env.frameAllocated && env.copy.CopyFailed? ==>
        r == Err(env.copy.errno)
      ensures env.newPid.Some? && env.spaceAllocated && env.frameAllocated && env.copy.Copied? ==>
        r == if env.threadStarted then Ok(env.newPid.value) else Err(ENOMEM)
      ensures r.Err? ==> procs == old(procs)
      ensures r.Ok? ==>
        var child := r.retval;
        var rec := Proc(child, Some(cur), [], Some(env.copy.space), 0, false);
        procs == if env.childAdded then Link(old(procs)[child := rec], cur, child) else old(procs)[child := rec]
      ensures r.Ok? ==> procs[r.retval].addrspace != procs[cur].addrspace
    {
      // Step 1: the child's record.
      var step := CreateChild(env.newPid);
      if step.Return? {
        return Err(step.errno);
      }
      var child := step.value;
      procs := procs[child := NewRecord(child)];

      // Step 2: memory for the child's address space and trap frame.
      if !env.spaceAllocated || !env.frameAllocated {
        DestroyUndoesCreate(old(procs), child, NewRecord(child), false);
        procs := Destroy(procs, child);
        return Err(ENOMEM);
      }

      // Step 3: the copy of the caller's address space.
      if env.copy.CopyFailed? {
        DestroyUndoesCreate(old(procs), child, NewRecord(child), false);
        procs := Destroy(procs, child);
        return Err(env.copy.errno);
      }
      procs := procs[child := procs[child].(addrspace := Some(env.copy.space))];

      // Step 4: the parent/child relationship; a failed insertion is only logged.
      procs := procs[child := procs[child].(parent := Some(cur))];
      ghost var rec := Proc(child, Some(cur), [], Some(env.copy.space), 0, false);
      assert procs == old(procs)[child := rec];
      if env.childAdded {
        procs := Link(procs, cur, child);
      }

      // Step 5: the child's thread.
      if !env.threadStarted {
        DestroyUndoesCreate(old(procs), child, rec, env.childAdded);
        procs := Destroy(procs, child);
        return Err(ENOMEM);
      }
      ForkKeepsInvariant(old(procs), cur, child, env.copy.space, env.childAdded);
      assert procs[child].addrspace == Some(env.copy.space);
      assert procs[cur].addrspace == old(procs)[cur].addrspace;
      r := Ok(child);
    }
  }

  /**
   * A parent forks a child, the child exits with `code`, and the parent's
   * waitpid then returns the child's pid and delivers the encoded code.
   */
  method ForkExitWait(t: ProcTable, parent: Pid, env: ForkEnv, code: int)
    returns (child: Pid, r: SysResult, status: Option<int>)
    requires t.Valid() && parent in t.procs && t.procs[parent].addrspace.Some?
    requires FreshFor(t.procs, env)
    requires env.newPid.Some? && env.spaceAllocated && env.frameAllocated && env.copy.Copied?
    requires env.childAdded && env.threadStarted
    modifies t
    ensures t.Valid()
    ensures r == Ok(child) && status == Some(t.encodeExit(code))
  {
    var forked := t.Fork(parent, env);
    child := forked.retval;
    t.Exit(child, code);
    r, status := t.WaitPid(parent, child, 0, None);
  }
}
