/** `startDaemon` and its `finalize` as they assign their variables
    (apps/daemon/src/runtime.ts:639-830), over the lease files of `FileLease`. What the
    other processes may do in between is the subject of `DaemonOwnership`; here one
    daemon runs alone and every call it makes may throw. */
module DaemonRuntime {
  import opened FileLease

  datatype Option<T> = None | Some(value: T)

  /** The discovery metadata and the socket of one state root, by owner token. */
  class StateRoot {
    var metadata: Option<nat>
    var socket: Option<nat>

    constructor (metadata: Option<nat>, socket: Option<nat>)
      ensures this.metadata == metadata && this.socket == socket
    {
      this.metadata, this.socket := metadata, socket;
    }
  }

  /** Which calls throw. A write may throw before or after its rename. */
  datatype Write = Written | ThrowsBefore | ThrowsAfter

  datatype Faults = Faults(
    readMetadata: bool,
    recheckMetadata: bool,
    publishStarting: Write,
    openDatabase: bool,
    prepare: bool,
    clearEndpoint: bool,
    bind: bool,
    publishReady: Write,
    closeDatabase: bool,
    stopListener: bool,
    unlinksSocket: bool,
    cleanupMetadata: bool,
    removeEndpoint: bool)

  /** No call up to the opened database throws. */
  predicate Opens(f: Faults)
  {
    !f.readMetadata && !f.recheckMetadata && f.publishStarting.Written? && !f.openDatabase
  }

  /** ... nor one up to the socket being bound ... */
  predicate Binds(f: Faults)
  {
    Opens(f) && !f.prepare && !f.clearEndpoint && !f.bind
  }

  /** ... nor the last one. */
  predicate Serves(f: Faults)
  {
    Binds(f) && f.publishReady.Written?
  }

  /** The metadata a failed start leaves: its own is removed unless it is not known to be
      written or its removal throws. */
  function LeftMetadata(f: Faults, token: nat, before: Option<nat>, free: bool): Option<nat>
  {
    if !free || f.readMetadata || f.recheckMetadata || f.publishStarting.ThrowsBefore? then before
    else if f.publishStarting.Written? && !f.cleanupMetadata then None
    else Some(token)
  }

  /** The socket a failed start leaves: whoever had the lifecycle lease removes it, unless
      that throws. */
  function LeftSocket(f: Faults, token: nat, before: Option<nat>, lifecycleFree: bool, databaseFree: bool): Option<nat>
  {
    if f.readMetadata || !lifecycleFree then before
    else if !f.removeEndpoint then None
    else if !databaseFree || !Opens(f) || f.prepare || f.clearEndpoint then before
    else if f.bind || f.unlinksSocket then None
    else Some(token)
  }

  class Daemon {
    const token: nat
    const root: StateRoot
    const lifecycleFile: LeaseFile
    const databaseFile: LeaseFile
    var lifecycleLease: RetainedLease?
    var databaseLease: RetainedLease?
    var database: bool
    var listener: bool
    var wroteMetadata: bool

    ghost function Footprint(): set<object>
      reads this
    {
      {this, root, lifecycleFile, databaseFile}
      + (if lifecycleLease == null then {} else {lifecycleLease})
      + (if databaseLease == null then {} else {databaseLease})
    }

    /** A lease variable that is set holds an active exclusive lease of its own file. */
    ghost predicate Holds(lease: RetainedLease?, file: LeaseFile, request: Request)
      reads file, if lease == null then {} else {lease, lease.file}
    {
      lease != null ==>
        && lease.file == file && lease.Valid() && lease.active && lease.request == request
        && file.holders == map[lease.fd := Exclusive]
    }

    function LifecycleRequest(): Request
    {
      Request(lifecycleFile.target, lifecycleFile.purpose, Exclusive)
    }

    function DatabaseRequest(): Request
    {
      Request(databaseFile.target, databaseFile.purpose, Exclusive)
    }

    ghost predicate Valid()
      reads this, root, lifecycleFile, databaseFile,
            if lifecycleLease == null then {} else {lifecycleLease, lifecycleLease.file},
            if databaseLease == null then {} else {databaseLease, databaseLease.file}
    {
      && lifecycleFile != databaseFile && lifecycleFile.Valid() && databaseFile.Valid()
      && Holds(lifecycleLease, lifecycleFile, LifecycleRequest())
      && Holds(databaseLease, databaseFile, DatabaseRequest())
      && (lifecycleLease != null && databaseLease != null ==> lifecycleLease != databaseLease)
      && (databaseLease != null ==> lifecycleLease != null)
      && (database || wroteMetadata || listener ==> databaseLease != null)
    }

    /** Serving: both leases, the database, its own metadata and its own socket. */
    ghost predicate Serving()
      reads this, root, lifecycleFile, databaseFile,
            if lifecycleLease == null then {} else {lifecycleLease, lifecycleLease.file},
            if databaseLease == null then {} else {databaseLease, databaseLease.file}
    {
      && Valid() && lifecycleLease != null && databaseLease != null
      && database && listener && wroteMetadata
      && root.metadata == Some(token) && root.socket == Some(token)
    }

    constructor (token: nat, root: StateRoot, lifecycleFile: LeaseFile, databaseFile: LeaseFile)
      requires lifecycleFile != databaseFile && lifecycleFile.Valid() && databaseFile.Valid()
      ensures Valid() && lifecycleLease == null && databaseLease == null && !database && !listener && !wroteMetadata
      ensures this.token == token && this.root == root
      ensures this.lifecycleFile == lifecycleFile && this.databaseFile == databaseFile
    {
      this.token, this.root, this.lifecycleFile, this.databaseFile := token, root, lifecycleFile, databaseFile;
      lifecycleLease, databaseLease := null, null;
      database, listener, wroteMetadata := false, false, false;
    }

    method WriteLifecycle(w: Write) returns (ok: bool)
      requires Valid() && databaseLease != null
      modifies this`wroteMetadata, root
      ensures Valid() && ok == w.Written?
      ensures root.metadata == if w.ThrowsBefore? then old(root.metadata) else Some(token)
      ensures root.socket == old(root.socket)
      ensures wroteMetadata == (old(wroteMetadata) || ok)
    {
      ok := w.Written?;
      if !w.ThrowsBefore? {
        root.metadata := Some(token);
      }
      if ok {
        wroteMetadata := true;
      }
    }

    /** The two acquisitions; what was taken before a conflict stays in its variable. */
    method TakeLeases() returns (ok: bool)
      requires Valid() && lifecycleLease == null && databaseLease == null && !database && !listener && !wroteMetadata
      modifies this`lifecycleLease, this`databaseLease, lifecycleFile, databaseFile
      ensures Valid() && (lifecycleLease != null ==> fresh(lifecycleLease)) && (databaseLease != null ==> fresh(databaseLease))
      ensures lifecycleLease != null <==> old(lifecycleFile.holders) == map[]
      ensures databaseLease != null <==> lifecycleLease != null && old(databaseFile.holders) == map[]
      ensures ok <==> databaseLease != null
      ensures lifecycleLease == null ==> lifecycleFile.holders == old(lifecycleFile.holders)
      ensures databaseLease == null ==> databaseFile.holders == old(databaseFile.holders)
    {
      lifecycleLease := lifecycleFile.Acquire(Exclusive);
      if lifecycleLease == null {
        return false;
      }
      databaseLease := databaseFile.Acquire(Exclusive);
      ok := databaseLease != null;
    }

    /** The try block. */
    method TryStart(f: Faults) returns (ok: bool)
      requires Valid() && lifecycleLease == null && databaseLease == null && !database && !listener && !wroteMetadata
      modifies this, root, lifecycleFile, databaseFile
      ensures Valid() && (lifecycleLease != null ==> fresh(lifecycleLease)) && (databaseLease != null ==> fresh(databaseLease))
      ensures ok ==> Serving()
      ensures lifecycleLease != null <==> !f.readMetadata && old(lifecycleFile.holders) == map[]
      ensures databaseLease != null <==> lifecycleLease != null && old(databaseFile.holders) == map[]
      ensures ok <==> databaseLease != null && Serves(f)
      ensures database <==> databaseLease != null && Opens(f)
      ensures listener <==> databaseLease != null && Binds(f)
      ensures wroteMetadata <==> databaseLease != null && !f.recheckMetadata && f.publishStarting.Written?
      ensures lifecycleLease == null ==> lifecycleFile.holders == old(lifecycleFile.holders)
      ensures databaseLease == null ==> databaseFile.holders == old(databaseFile.holders)
      ensures root.metadata == if databaseLease != null && !f.recheckMetadata && !f.publishStarting.ThrowsBefore?
                               then Some(token) else old(root.metadata)
      ensures root.socket == if listener then Some(token)
                             else if database && !f.prepare && !f.clearEndpoint then None else old(root.socket)
    {
      if f.readMetadata {
        return false;
      }
      ok := TakeLeases();
      if !ok || f.recheckMetadata {
        return false;
      }
      ok := WriteLifecycle(f.publishStarting);
      if !ok || f.openDatabase {
        return false;
      }
      database := true;
      if f.prepare || f.clearEndpoint {
        return false;
      }
      root.socket := None;
      if f.bind {
        return false;
      }
      root.socket := Some(token);
      listener := true;
      ok := WriteLifecycle(f.publishReady);
    }

    /** `cleanupDiscoveryMetadata`: only under the retained lease, only its own file. */
    method CleanupMetadata(fails: bool) returns (removed: bool)
      requires Valid() && lifecycleLease != null
      modifies root`metadata
      ensures removed <==> !fails && old(root.metadata) == Some(token)
      ensures root.metadata == if removed then None else old(root.metadata)
    {
      var retained := lifecycleLease.AssertRetained(LifecycleRequest());
      removed := !fails && retained && root.metadata == Some(token);
      if removed {
        root.metadata := None;
      }
    }

    method ReleaseLeases()
      requires Valid() && !database && !wroteMetadata && !listener
      modifies Footprint()
      ensures lifecycleLease == null && databaseLease == null && Valid()
      ensures lifecycleFile.holders == if old(lifecycleLease) == null then old(lifecycleFile.holders) else map[]
      ensures databaseFile.holders == if old(databaseLease) == null then old(databaseFile.holders) else map[]
      ensures root.metadata == old(root.metadata) && root.socket == old(root.socket)
      ensures !database && !wroteMetadata && !listener
    {
      if databaseLease != null {
        databaseLease.Release();
      }
      databaseLease := null;
      if lifecycleLease != null {
        lifecycleLease.Release();
      }
      lifecycleLease := null;
    }

    /** The catch block up to the leases: the listener and the handle, then, for the holder
        of the lifecycle lease, its own metadata and the socket, unless a call throws. */
    method UndoWork(f: Faults) returns (leaked: bool)
      requires Valid()
      modifies this`listener, this`database, this`wroteMetadata, root
      ensures Valid() && !database && !wroteMetadata && !listener
      ensures leaked == (old(database) && f.closeDatabase)
      ensures root.metadata ==
              if old(wroteMetadata) && !f.cleanupMetadata && old(root.metadata) == Some(token) then None else old(root.metadata)
      ensures root.socket ==
              if (old(listener) && f.unlinksSocket) || (lifecycleLease != null && !f.removeEndpoint) then None else old(root.socket)
    {
      if listener && f.unlinksSocket {
        root.socket := None;
      }
      listener := false;
      leaked := database && f.closeDatabase;
      if wroteMetadata && lifecycleLease != null {
        var _ := CleanupMetadata(f.cleanupMetadata);
      }
      if lifecycleLease != null && !f.removeEndpoint {
        root.socket := None;
      }
      // The variables go out of scope with the throw.
      database, wroteMetadata := false, false;
    }

    /** The catch block: each statement is guarded on its own, errors are dropped.
        `leaked` says that the database is still open afterwards. */
    method Rollback(f: Faults) returns (leaked: bool)
      requires Valid() && (wroteMetadata ==> root.metadata == Some(token))
      modifies Footprint()
      ensures Valid() && lifecycleLease == null && databaseLease == null
      ensures lifecycleFile.holders == if old(lifecycleLease) == null then old(lifecycleFile.holders) else map[]
      ensures databaseFile.holders == if old(databaseLease) == null then old(databaseFile.holders) else map[]
      ensures leaked <==> old(database) && f.closeDatabase
      ensures root.metadata == if old(wroteMetadata) && !f.cleanupMetadata then None else old(root.metadata)
      ensures root.socket ==
              if (old(listener) && f.unlinksSocket) || (old(lifecycleLease) != null && !f.removeEndpoint) then None
              else old(root.socket)
    {
      leaked := UndoWork(f);
      ReleaseLeases();
    }

    /** `startDaemon` up to its own throw. */
    method Start(f: Faults) returns (ok: bool, leaked: bool)
      requires Valid() && lifecycleLease == null && databaseLease == null && !database && !listener && !wroteMetadata
      modifies this, root, lifecycleFile, databaseFile
      ensures var free := old(lifecycleFile.holders) == map[] && old(databaseFile.holders) == map[];
              && (ok <==> free && Serves(f))
              && (leaked <==> free && Opens(f) && !Serves(f) && f.closeDatabase)
      ensures !ok ==> root.metadata ==
                      LeftMetadata(f, token, old(root.metadata), old(lifecycleFile.holders) == map[] && old(databaseFile.holders) == map[])
      ensures !ok ==> root.socket ==
                      LeftSocket(f, token, old(root.socket), old(lifecycleFile.holders) == map[], old(databaseFile.holders) == map[])
      ensures Valid() && (ok ==> Serving() && fresh({lifecycleLease, databaseLease}))
      ensures !ok ==> lifecycleLease == null && databaseLease == null
      ensures !ok ==> lifecycleFile.holders == old(lifecycleFile.holders) && databaseFile.holders == old(databaseFile.holders)
    {
      ok := TryStart(f);
      leaked := false;
      if !ok {
        leaked := Rollback(f);
      }
    }

    /** `finalize`, once the requests have drained; false when it rejects, and then it
        keeps what it has not given up. */
    method Finalize(f: Faults) returns (ok: bool)
      requires Serving()
      modifies Footprint()
      ensures Valid()
      ensures ok <==> !f.closeDatabase && !f.stopListener && !f.cleanupMetadata && !f.removeEndpoint
      ensures ok ==>
                && lifecycleLease == null && databaseLease == null && !database && !listener
                && lifecycleFile.holders == map[] && databaseFile.holders == map[]
                && root.metadata == None && root.socket == None
      ensures !ok ==>
                && lifecycleLease == old(lifecycleLease) && databaseLease == old(databaseLease)
                && lifecycleLease != null && databaseLease != null
                && (database <==> f.closeDatabase) && (listener <==> f.closeDatabase || f.stopListener)
      ensures root.metadata == if f.closeDatabase || f.stopListener || f.cleanupMetadata then old(root.metadata) else None
      ensures root.socket ==
              if f.closeDatabase || f.stopListener then old(root.socket)
              else if f.unlinksSocket || (!f.cleanupMetadata && !f.removeEndpoint) then None
              else old(root.socket)
    {
      if f.closeDatabase {
        return false;
      }
      database := false;
      if f.stopListener {
        return false;
      }
      if f.unlinksSocket {
        root.socket := None;
      }
      listener := false;
      if f.cleanupMetadata {
        return false;
      }
      var removed := CleanupMetadata(false);
      if removed {
        if f.removeEndpoint {
          return false;
        }
        root.socket := None;
      }
      wroteMetadata := false;
      ReleaseLeases();
      ok := true;
    }
  }
}
