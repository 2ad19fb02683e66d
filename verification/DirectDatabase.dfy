/** The ownership object of a direct database opener
    (apps/cli/src/direct-database.ts:102-183): one shared lease, at most one handle, and
    a close that works once. `open` is awaited before `close`. */
module DirectDatabase {
  import opened FileLease

  datatype OpenResult = Handle | RefusedClosed | OpenThrew | MigrateThrew(leaked: bool)

  /** Where the database calls throw. */
  datatype Faults = Faults(targetChanged: bool, open: bool, targetChangedAfter: bool, migrate: bool, close: bool)

  class Ownership {
    const file: LeaseFile
    const lease: RetainedLease
    var db: bool
    var released: bool
    ghost var stuck: bool

    /** The lease is active exactly until an orderly close; a close that throws leaves
        both the handle and the lease. */
    ghost predicate Valid()
      reads this, lease, file, lease.file
    {
      && lease.file == file && lease.Valid() && lease.request.mode.Shared? && lease.request.purpose.Database?
      && (lease.active <==> !released || stuck)
      && (db ==> lease.active) && (stuck ==> released && db)
    }

    constructor (lease: RetainedLease)
      requires lease.Valid() && lease.active && lease.request.mode.Shared? && lease.request.purpose.Database?
      ensures Valid() && this.lease == lease && file == lease.file && !db && !released && !stuck
    {
      file, this.lease, db, released, stuck := lease.file, lease, false, false, false;
    }

    method Open(f: Faults) returns (r: OpenResult)
      requires Valid()
      modifies this`db
      ensures Valid()
      ensures r.RefusedClosed? <==> released
      ensures r.Handle? <==> !released && (old(db) || !(f.targetChanged || f.open || f.targetChangedAfter || f.migrate))
      ensures db == (old(db) || r.Handle?)
      ensures r.OpenThrew? <==> !released && !old(db) && (f.targetChanged || f.open)
      ensures r.MigrateThrew? ==> r.leaked == f.close && !db
    {
      if released {
        return RefusedClosed;
      }
      if db {
        return Handle;
      }
      var retained := lease.AssertDatabaseTarget(!f.targetChanged);
      if !retained || f.open {
        return OpenThrew;
      }
      retained := lease.AssertDatabaseTarget(!f.targetChangedAfter);
      if !retained || f.migrate {
        // `opened.close()` may throw in its turn; `db` was never assigned.
        return MigrateThrew(f.close);
      }
      db := true;
      return Handle;
    }

    method Close(throws: bool) returns (threw: bool)
      requires Valid()
      modifies this`db, this`released, this`stuck, lease`active, file`holders
      ensures Valid() && released
      ensures threw <==> !old(released) && old(db) && throws
      ensures old(released) ==> file.holders == old(file.holders) && db == old(db) && lease.active == old(lease.active)
      ensures !old(released) && !threw ==> !db && !lease.active && file.holders == Free(old(file.holders), lease.fd)
      ensures threw ==> db && lease.active && file.holders == old(file.holders)
    {
      if released {
        return false;
      }
      released := true;
      if db && throws {
        stuck := true;
        return true;
      }
      db := false;
      lease.Release();
      return false;
    }
  }

  /** `openLeasedDatabase`: null when the lease is taken exclusively or opening fails,
      and then the lease is free again; `leaked` when a handle was left open. */
  method OpenLeasedDatabase(file: LeaseFile, f: Faults) returns (ownership: Ownership?, leaked: bool)
    requires file.Valid() && file.purpose.Database?
    modifies file
    ensures file.Valid()
    ensures ownership != null ==> fresh(ownership) && ownership.Valid() && ownership.file == file && ownership.db && !ownership.released
    ensures ownership != null <==>
              Compatible(old(file.holders), Shared) && !(f.targetChanged || f.open || f.targetChangedAfter || f.migrate)
    ensures ownership == null ==> file.holders == old(file.holders)
    ensures leaked <==>
              && Compatible(old(file.holders), Shared) && !f.targetChanged && !f.open
              && (f.targetChangedAfter || f.migrate) && f.close
  {
    ownership, leaked := null, false;
    var lease := file.Acquire(Shared);
    if lease == null {
      return;
    }
    var candidate := new Ownership(lease);
    var first := candidate.Open(f);
    if first.Handle? {
      return candidate, false;
    }
    leaked := first.MigrateThrew? && first.leaked;
    var _ := candidate.Close(false);
  }
}
