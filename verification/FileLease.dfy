/** Retained advisory file leases (packages/local-daemon/src/lease.ts:374-558):
    both backends seen as one lock table per lease file, keyed by holder. */
module FileLease {

  datatype Mode = Shared | Exclusive

  /** The holders of one lease file. */
  type LockTable = map<nat, Mode>

  predicate Compatible(t: LockTable, mode: Mode)
  {
    match mode
    case Exclusive => t == map[]
    case Shared => forall h :: h in t ==> t[h].Shared?
  }

  ghost predicate WellHeld(t: LockTable)
  {
    forall h, k :: h in t && k in t && h != k ==> t[h].Shared? && t[k].Shared?
  }

  function Grant(t: LockTable, holder: nat, mode: Mode): LockTable
  {
    t[holder := mode]
  }

  function Free(t: LockTable, holder: nat): LockTable
  {
    t - {holder}
  }

  /** A mode is compatible exactly when one more holder in it keeps the lease file well
      held. */
  lemma CompatibleExactly(t: LockTable, holder: nat, mode: Mode)
    requires WellHeld(t) && holder !in t
    ensures Compatible(t, mode) <==> WellHeld(Grant(t, holder, mode))
  {
    var g := Grant(t, holder, mode);
    if h :| h in t {
      assert h in g && g[h] == t[h] && g[holder] == mode;
    }
    forall h | h in t ensures g[h] == t[h] {}
  }

  /** An exclusive holder is the only holder. */
  lemma ExclusiveIsAlone(t: LockTable, holder: nat)
    requires WellHeld(t) && holder in t && t[holder].Exclusive?
    ensures t == map[holder := Exclusive]
  {
    assert t.Keys == {holder};
  }

  datatype Purpose = Lifecycle | Database

  datatype Request = Request(target: string, purpose: Purpose, mode: Mode)

  /** The kernel's view of one lease file. Descriptor numbers are reused as soon as
      they are closed. */
  class LeaseFile {
    const target: string
    const purpose: Purpose
    var holders: LockTable

    ghost predicate Valid()
      reads this
    {
      WellHeld(holders)
    }

    constructor (target: string, purpose: Purpose)
      ensures Valid() && holders == map[] && this.target == target && this.purpose == purpose
    {
      this.target, this.purpose, holders := target, purpose, map[];
    }

    /** A non-blocking acquisition; `lease` is null on a conflict. */
    method Acquire(mode: Mode) returns (lease: RetainedLease?)
      requires Valid()
      modifies this
      ensures Valid()
      ensures lease != null <==> Compatible(old(holders), mode)
      ensures lease == null ==> holders == old(holders)
      ensures lease != null ==>
                && fresh(lease) && lease.Valid() && lease.active && lease.file == this
                && lease.request == Request(target, purpose, mode)
                && lease.fd !in old(holders) && holders == Grant(old(holders), lease.fd, mode)
    {
      lease := null;
      if mode.Exclusive? && holders != map[] {
        return;
      }
      if mode.Shared? && exists h :: h in holders && holders[h].Exclusive? {
        return;
      }
      var fd := LowestUnused(holders.Keys);
      holders := holders[fd := mode];
      lease := new RetainedLease(this, fd, Request(target, purpose, mode));
    }
  }

  function UnusedFrom(used: set<nat>, n: nat): (fd: nat)
    requires forall m: nat :: m < n ==> m in used
    ensures fd !in used
    ensures forall m: nat :: m < fd ==> m in used
    decreases |set m | m in used && m >= n|
  {
    if n !in used then n
    else
      assert (set m | m in used && m >= n) == (set m | m in used && m >= n + 1) + {n};
      UnusedFrom(used, n + 1)
  }

  function LowestUnused(used: set<nat>): (fd: nat)
    ensures fd !in used
    ensures forall n: nat :: n < fd ==> n in used
  {
    UnusedFrom(used, 0)
  }

  class RetainedLease {
    const file: LeaseFile
    const fd: nat
    const request: Request
    var active: bool

    /** An active lease is a holder of its file in its own mode. */
    ghost predicate Valid()
      reads this, file
    {
      && file.Valid()
      && (active ==> fd in file.holders && file.holders[fd] == request.mode)
    }

    constructor (file: LeaseFile, fd: nat, request: Request)
      requires file.Valid() && fd in file.holders && file.holders[fd] == request.mode
      ensures Valid() && active && this.file == file && this.fd == fd && this.request == request
    {
      this.file, this.fd, this.request, active := file, fd, request, true;
    }

    /** Idempotent. A second call leaves the file alone even when another holder
        has since been given the same descriptor number. */
    method Release()
      requires Valid()
      modifies this`active, file`holders
      ensures Valid() && !active
      ensures file.holders == if old(active) then Free(old(file.holders), fd) else old(file.holders)
    {
      if !active {
        return;
      }
      active := false;
      file.holders := file.holders - {fd};
    }

    /** `assertRetainedDatabaseLeaseTarget`: only an active database lease whose target
        still passes the file checks; the holder then shares the file with no
        exclusive holder but itself. */
    method AssertDatabaseTarget(targetValid: bool) returns (ok: bool)
      requires Valid()
      ensures ok == (active && request.purpose.Database? && targetValid)
      ensures ok ==> fd in file.holders && forall h :: h in file.holders && h != fd ==> file.holders[h].Shared?
    {
      ok := active && request.purpose.Database? && targetValid;
    }

    /** `assertRetainedFileLease`: only an active lease of exactly this request. */
    method AssertRetained(expected: Request) returns (ok: bool)
      requires Valid()
      ensures ok == (active && request == expected)
      ensures ok && expected.mode.Exclusive? ==> file.holders == map[fd := Exclusive]
    {
      ok := active && request.target == expected.target
            && request.purpose == expected.purpose && request.mode == expected.mode;
      if active && request.mode.Exclusive? {
        ExclusiveIsAlone(file.holders, fd);
      }
    }
  }
}
