/** The ownership protocol between all processes that share one runtime identity: two
    lease files, one metadata file and one socket file. */
module DaemonOwnership {
  import opened FileLease

  // The processes are daemons (apps/daemon/src/runtime.ts:634-830), direct database
  // openers (apps/cli/src/direct-database.ts:102-183), extension mutations
  // (apps/cli/src/extensions/daemon-coordination.ts:31-66), stale cleaners
  // (apps/cli/src/daemon/lifecycle.ts:359-386) and probes
  // (apps/cli/src/daemon/lifecycle.ts:336-352, apps/cli/src/daemon/client.ts:957-981).
  // Each step of a process is atomic, any step may fail, and any process may crash
  // between steps: the kernel then frees its leases and handles while its files stay
  // behind. A process number is its owner token.

  datatype Role = Daemon | Opener | Mutation | Cleaner | Probe

  /** The statements of `startDaemon`'s try block, of `finalize`, of its catch block,
      of a direct opener, of an extension mutation, of a stale cleaner, of a probe. */
  datatype StartupPc = ReadMetadata | TakeLifecycle | TakeDatabase | RecheckMetadata
    | PublishStarting | OpenDatabase | Prepare | ClearEndpoint | Bind | PublishReady | Serving
  datatype FinalizePc = CloseDatabase | StopListener | VerifyMetadata | RemoveMetadata
    | RemoveOwnEndpoint | ReleaseDatabase | ReleaseLifecycle
  datatype UndoPc = UndoListener | UndoDatabase | UndoVerify | UndoRemove | UndoEndpoint
    | UndoDatabaseLease | UndoLifecycleLease
  datatype OpenerPc = OpenerAcquire | OpenerOpen | OpenerMigrate | OpenerAbandon | OpenerUse
    | OpenerClose | OpenerRelease
  datatype MutationPc = MutationStatus | MutationStop | MutationAcquire | MutationOperate
    | MutationRelease | MutationRestore
  datatype CleanerPc = CleanerObserve | CleanerAcquire | CleanerVerify | CleanerRemove
    | CleanerEndpoint | CleanerRelease
  datatype ProbePc = ProbeLifecycle | ProbeDatabase | ProbeReleaseDatabase | ProbeReleaseLifecycle

  /** The statement a process is about to execute. `Stuck` is a rejected promise
      that keeps what it holds. */
  datatype Pc =
    | InStartup(startup: StartupPc) | InFinalize(finalize: FinalizePc) | InUndo(undo: UndoPc)
    | InOpener(opener: OpenerPc) | InMutation(mutation: MutationPc) | InCleaner(cleaner: CleanerPc)
    | InProbe(probe: ProbePc) | Stuck | Done

  datatype Lease = NoLease | Held(mode: Mode)

  datatype Owner = Nobody | Owner(pid: nat)

  /** The local variables of a process. `published` and `bound` say that the
      metadata and socket files it wrote have been neither removed nor given up;
      `closeFailed` that closing its database handle threw and was ignored. */
  datatype Proc = Proc(
    role: Role,
    pc: Pc,
    lifecycle: Lease,
    database: Lease,
    handle: bool,
    wrote: bool,
    published: bool,
    bound: bool,
    closeFailed: bool,
    seen: Owner)

  datatype State = State(
    procs: map<nat, Proc>,
    lifecycle: LockTable,
    database: LockTable,
    metadata: Owner,
    endpoint: Owner)

  /** How a step turns out: as written, its other branch, a failure before its
      effect, or a failure after it. */
  datatype Outcome = Succeeds | TakesOtherBranch | Fails | FailsLate

  datatype Event = Spawn(pid: nat, role: Role) | Act(pid: nat, outcome: Outcome) | Crash(pid: nat)

  const INITIAL := State(map[], map[], map[], Nobody, Nobody)

  // ---- Steps ---------------------------------------------------------------------

  function StartPc(role: Role): Pc
  {
    match role
    case Daemon => InStartup(ReadMetadata)
    case Opener => InOpener(OpenerAcquire)
    case Mutation => InMutation(MutationStatus)
    case Cleaner => InCleaner(CleanerObserve)
    case Probe => InProbe(ProbeLifecycle)
  }

  function NewProc(role: Role): Proc
  {
    Proc(role, StartPc(role), NoLease, NoLease, false, false, false, false, false, Nobody)
  }

  /** What a process sees of the shared objects when it takes a step. */
  datatype Sight = Sight(lifecycle: LockTable, database: LockTable, metadata: Owner, endpoint: Owner)

  /** The process and the two files after the step. */
  datatype Move = Move(proc: Proc, metadata: Owner, endpoint: Owner)

  predicate Went(o: Outcome)
  {
    o.Succeeds? || o.TakesOtherBranch?
  }

  /** A step that changes local variables only. */
  function Becomes(v: Sight, proc: Proc): Move
  {
    Move(proc, v.metadata, v.endpoint)
  }

  function Goto(v: Sight, proc: Proc, pc: Pc): Move
  {
    Becomes(v, proc.(pc := pc))
  }

  function AcquireLifecycle(v: Sight, proc: Proc, mode: Mode, o: Outcome, next: Pc, conflict: Pc): Move
  {
    if o.Succeeds? && Compatible(v.lifecycle, mode)
    then Becomes(v, proc.(pc := next, lifecycle := Held(mode)))
    else Goto(v, proc, conflict)
  }

  function AcquireDatabase(v: Sight, proc: Proc, mode: Mode, o: Outcome, next: Pc, conflict: Pc): Move
  {
    if o.Succeeds? && Compatible(v.database, mode)
    then Becomes(v, proc.(pc := next, database := Held(mode)))
    else Goto(v, proc, conflict)
  }

  function FreeLifecycle(v: Sight, proc: Proc, next: Pc): Move
  {
    Becomes(v, proc.(pc := next, lifecycle := NoLease, published := false, bound := false))
  }

  function FreeDatabase(v: Sight, proc: Proc, next: Pc): Move
  {
    Becomes(v, proc.(pc := next, database := NoLease))
  }

  /** `writeDiscoveryMetadata`: a rename that may be reported as failed afterwards. */
  function Publish(v: Sight, p: nat, proc: Proc, o: Outcome, next: Pc, failed: Pc): Move
  {
    match o
    case Fails => Goto(v, proc, failed)
    case FailsLate => Goto(v, proc, failed).(metadata := Owner(p))
    case _ => Becomes(v, proc.(pc := next, wrote := true, published := true)).(metadata := Owner(p))
  }

  /** The try block of `startDaemon`, and the step that begins stopping. */
  function StartupMove(v: Sight, p: nat, proc: Proc, at: StartupPc, o: Outcome): Move
  {
    var ok := Went(o);
    match at
    case ReadMetadata => Goto(v, proc, if ok then InStartup(TakeLifecycle) else InUndo(UndoListener))
    case TakeLifecycle => AcquireLifecycle(v, proc, Exclusive, o, InStartup(TakeDatabase), InUndo(UndoListener))
    case TakeDatabase => AcquireDatabase(v, proc, Exclusive, o, InStartup(RecheckMetadata), InUndo(UndoListener))
    case RecheckMetadata => Goto(v, proc, if ok then InStartup(PublishStarting) else InUndo(UndoListener))
    case PublishStarting => Publish(v, p, proc, o, InStartup(OpenDatabase), InUndo(UndoListener))
    case OpenDatabase =>
      if ok then Becomes(v, proc.(pc := InStartup(Prepare), handle := true)) else Goto(v, proc, InUndo(UndoListener))
    case Prepare => Goto(v, proc, if ok then InStartup(ClearEndpoint) else InUndo(UndoListener))
    case ClearEndpoint =>
      if ok then Goto(v, proc, InStartup(Bind)).(endpoint := Nobody) else Goto(v, proc, InUndo(UndoListener))
    case Bind =>
      if ok then Becomes(v, proc.(pc := InStartup(PublishReady), bound := true)).(endpoint := Owner(p))
      else if o.FailsLate? then Goto(v, proc, InUndo(UndoListener)).(endpoint := Owner(p))
      else Goto(v, proc, InUndo(UndoListener))
    case PublishReady => Publish(v, p, proc, o, InStartup(Serving), InUndo(UndoListener))
    // Stopping begins; a failed metadata update is ignored.
    case Serving => Publish(v, p, proc, o, InFinalize(CloseDatabase), InFinalize(CloseDatabase))
  }

  /** `finalize`, after the requests have drained. */
  function FinalizeMove(v: Sight, p: nat, proc: Proc, at: FinalizePc, o: Outcome): Move
  {
    var ok := Went(o);
    match at
    case CloseDatabase =>
      if ok then Becomes(v, proc.(pc := InFinalize(StopListener), handle := false)) else Goto(v, proc, Stuck)
    // The listener may or may not unlink its socket file.
    case StopListener =>
      if o.TakesOtherBranch? then Becomes(v, proc.(pc := InFinalize(VerifyMetadata), bound := false)).(endpoint := Nobody)
      else Goto(v, proc, if o.Succeeds? then InFinalize(VerifyMetadata) else Stuck)
    case VerifyMetadata =>
      if !ok then Goto(v, proc, Stuck)
      else Goto(v, proc, if v.metadata == Owner(p) then InFinalize(RemoveMetadata) else InFinalize(ReleaseDatabase))
    case RemoveMetadata =>
      if !ok then Goto(v, proc, Stuck)
      else if v.metadata == Owner(p)
      then Becomes(v, proc.(pc := InFinalize(RemoveOwnEndpoint), published := false)).(metadata := Nobody)
      else Goto(v, proc, InFinalize(ReleaseDatabase))
    case RemoveOwnEndpoint =>
      if ok then Becomes(v, proc.(pc := InFinalize(ReleaseDatabase), bound := false)).(endpoint := Nobody)
      else Goto(v, proc, Stuck)
    case ReleaseDatabase => FreeDatabase(v, proc, InFinalize(ReleaseLifecycle))
    case ReleaseLifecycle => FreeLifecycle(v, proc, Done)
  }

  /** The catch block: every statement is guarded, and its own failure ignored. */
  function UndoMove(v: Sight, p: nat, proc: Proc, at: UndoPc, o: Outcome): Move
  {
    var ok := Went(o);
    match at
    case UndoListener =>
      if o.TakesOtherBranch? && proc.bound
      then Becomes(v, proc.(pc := InUndo(UndoDatabase), bound := false)).(endpoint := Nobody)
      else Goto(v, proc, InUndo(UndoDatabase))
    case UndoDatabase =>
      if !proc.handle then Goto(v, proc, InUndo(UndoVerify))
      else if ok then Becomes(v, proc.(pc := InUndo(UndoVerify), handle := false))
      else Becomes(v, proc.(pc := InUndo(UndoVerify), closeFailed := true))
    case UndoVerify =>
      Goto(v, proc, if proc.wrote && proc.lifecycle.Held? && ok && v.metadata == Owner(p)
                    then InUndo(UndoRemove) else InUndo(UndoEndpoint))
    case UndoRemove =>
      if ok && v.metadata == Owner(p)
      then Becomes(v, proc.(pc := InUndo(UndoEndpoint), published := false)).(metadata := Nobody)
      else Goto(v, proc, InUndo(UndoEndpoint))
    case UndoEndpoint =>
      if ok && proc.lifecycle.Held?
      then Becomes(v, proc.(pc := InUndo(UndoDatabaseLease), bound := false)).(endpoint := Nobody)
      else Goto(v, proc, InUndo(UndoDatabaseLease))
    case UndoDatabaseLease => FreeDatabase(v, proc, InUndo(UndoLifecycleLease))
    case UndoLifecycleLease => FreeLifecycle(v, proc, Done)
  }

  function CloseHandle(v: Sight, proc: Proc, ok: bool, next: Pc): Move
  {
    if !proc.handle then Goto(v, proc, next)
    else if ok then Becomes(v, proc.(pc := next, handle := false))
    else Goto(v, proc, Stuck)
  }

  function OpenerMove(v: Sight, proc: Proc, at: OpenerPc, o: Outcome): Move
  {
    var ok := Went(o);
    match at
    case OpenerAcquire => AcquireDatabase(v, proc, Shared, o, InOpener(OpenerOpen), Done)
    case OpenerOpen =>
      if ok then Becomes(v, proc.(pc := InOpener(OpenerMigrate), handle := true)) else Goto(v, proc, InOpener(OpenerRelease))
    case OpenerMigrate => Goto(v, proc, if ok then InOpener(OpenerUse) else InOpener(OpenerAbandon))
    // A failing `opened.close()` replaces the error; `db` was never assigned.
    case OpenerAbandon =>
      if ok then Becomes(v, proc.(pc := InOpener(OpenerRelease), handle := false))
      else Becomes(v, proc.(pc := InOpener(OpenerRelease), closeFailed := true))
    case OpenerUse => Goto(v, proc, InOpener(OpenerClose))
    case OpenerClose => CloseHandle(v, proc, ok, InOpener(OpenerRelease))
    case OpenerRelease => FreeDatabase(v, proc, Done)
  }

  function MutationMove(v: Sight, proc: Proc, at: MutationPc, o: Outcome): Move
  {
    var ok := Went(o);
    match at
    case MutationStatus =>
      if o.Succeeds? then Goto(v, proc, InMutation(MutationAcquire))
      else if o.TakesOtherBranch? then Goto(v, proc, InMutation(MutationStop))
      else Goto(v, proc, Done)
    case MutationStop => Goto(v, proc, if ok then InMutation(MutationAcquire) else InMutation(MutationRestore))
    case MutationAcquire => AcquireDatabase(v, proc, Shared, o, InMutation(MutationOperate), InMutation(MutationRestore))
    // The operation is not given the ownership: a database it opens has an opener of
    // its own.
    case MutationOperate => Goto(v, proc, InMutation(MutationRelease))
    case MutationRelease => FreeDatabase(v, proc, InMutation(MutationRestore))
    // A daemon to restart is a process of its own.
    case MutationRestore => Goto(v, proc, Done)
  }

  function CleanerMove(v: Sight, proc: Proc, at: CleanerPc, o: Outcome): Move
  {
    var ok := Went(o);
    match at
    case CleanerObserve =>
      if v.metadata.Owner? && ok then Becomes(v, proc.(pc := InCleaner(CleanerAcquire), seen := v.metadata))
      else Goto(v, proc, Done)
    case CleanerAcquire => AcquireLifecycle(v, proc, Exclusive, o, InCleaner(CleanerVerify), Done)
    case CleanerVerify =>
      Goto(v, proc, if ok && v.metadata == proc.seen then InCleaner(CleanerRemove) else InCleaner(CleanerRelease))
    case CleanerRemove =>
      if ok && v.metadata == proc.seen then Goto(v, proc, InCleaner(CleanerEndpoint)).(metadata := Nobody)
      else Goto(v, proc, InCleaner(CleanerRelease))
    case CleanerEndpoint =>
      if ok then Goto(v, proc, InCleaner(CleanerRelease)).(endpoint := Nobody) else Goto(v, proc, InCleaner(CleanerRelease))
    case CleanerRelease => FreeLifecycle(v, proc, Done)
  }

  function ProbeMove(v: Sight, proc: Proc, at: ProbePc, o: Outcome): Move
  {
    match at
    case ProbeLifecycle => AcquireLifecycle(v, proc, Shared, o, InProbe(ProbeDatabase), Done)
    case ProbeDatabase => AcquireDatabase(v, proc, Shared, o, InProbe(ProbeReleaseDatabase), InProbe(ProbeReleaseDatabase))
    case ProbeReleaseDatabase => FreeDatabase(v, proc, InProbe(ProbeReleaseLifecycle))
    case ProbeReleaseLifecycle => FreeLifecycle(v, proc, Done)
  }

  function ProcMove(v: Sight, p: nat, proc: Proc, o: Outcome): Move
  {
    match proc.pc
    case InStartup(at) => StartupMove(v, p, proc, at, o)
    case InFinalize(at) => FinalizeMove(v, p, proc, at, o)
    case InUndo(at) => UndoMove(v, p, proc, at, o)
    case InOpener(at) => OpenerMove(v, proc, at, o)
    case InMutation(at) => MutationMove(v, proc, at, o)
    case InCleaner(at) => CleanerMove(v, proc, at, o)
    case InProbe(at) => ProbeMove(v, proc, at, o)
    case Stuck => Becomes(v, proc)
    case Done => Becomes(v, proc)
  }

  function Look(s: State): Sight
  {
    Sight(s.lifecycle, s.database, s.metadata, s.endpoint)
  }

  function Reflect(t: LockTable, p: nat, lease: Lease): LockTable
  {
    if lease.Held? then Grant(t, p, lease.mode) else Free(t, p)
  }

  /** The kernel's lock tables follow the leases of the process that moved. */
  function Perform(s: State, p: nat, m: Move): State
  {
    State(s.procs[p := m.proc],
          Reflect(s.lifecycle, p, m.proc.lifecycle),
          Reflect(s.database, p, m.proc.database),
          m.metadata, m.endpoint)
  }

  function Step(s: State, e: Event): State
  {
    match e
    case Spawn(p, role) => if p in s.procs then s else s.(procs := s.procs[p := NewProc(role)])
    case Act(p, o) => if p in s.procs then Perform(s, p, ProcMove(Look(s), p, s.procs[p], o)) else s
    case Crash(p) =>
      State(s.procs - {p}, Free(s.lifecycle, p), Free(s.database, p), s.metadata, s.endpoint)
  }

  function Run(s: State, es: seq<Event>): State
    decreases |es|
  {
    if es == [] then s else Run(Step(s, es[0]), es[1..])
  }

  // ---- The invariant ------------------------------------------------------------------

  ghost predicate RoleModes(proc: Proc)
  {
    match proc.role
    case Daemon =>
      (proc.lifecycle.Held? ==> proc.lifecycle.mode.Exclusive?) && (proc.database.Held? ==> proc.database.mode.Exclusive?)
    case Cleaner =>
      (proc.lifecycle.Held? ==> proc.lifecycle.mode.Exclusive?) && proc.database.NoLease? && !proc.handle
    case Probe =>
      (proc.lifecycle.Held? ==> proc.lifecycle.mode.Shared?)
      && (proc.database.Held? ==> proc.database.mode.Shared?) && !proc.handle
    case _ => proc.lifecycle.NoLease? && (proc.database.Held? ==> proc.database.mode.Shared?)
  }

  /** Published metadata and a bound endpoint are on disk and under the lease. */
  ghost predicate FilesOwned(p: nat, proc: Proc, metadata: Owner, endpoint: Owner)
  {
    && (proc.published || proc.bound ==> proc.role.Daemon? && proc.lifecycle.Held?)
    && (proc.published ==> metadata == Owner(p) && proc.wrote)
    && (proc.bound ==> endpoint == Owner(p))
  }

  /** A database handle is open only under the lease, or because closing it threw. */
  ghost predicate HandleCovered(proc: Proc)
  {
    (proc.handle ==> proc.database.Held? || proc.closeFailed) && (proc.closeFailed ==> proc.handle)
  }

  ghost predicate Bare(proc: Proc)
  {
    proc.lifecycle.NoLease? && proc.database.NoLease?
  }

  ghost predicate OwnsBoth(proc: Proc)
  {
    proc.lifecycle.Held? && proc.database.Held? && !proc.closeFailed
  }

  ghost predicate Unpublished(proc: Proc)
  {
    !proc.handle && !proc.wrote && !proc.bound
  }

  ghost predicate Running(proc: Proc)
  {
    OwnsBoth(proc) && proc.handle && proc.published
  }

  /** What holds at each statement. */
  ghost predicate AtStartup(proc: Proc, at: StartupPc)
  {
    match at
    case ReadMetadata => Bare(proc) && Unpublished(proc)
    case TakeLifecycle => Bare(proc) && Unpublished(proc)
    case TakeDatabase => proc.lifecycle.Held? && proc.database.NoLease? && Unpublished(proc)
    case RecheckMetadata => OwnsBoth(proc) && Unpublished(proc)
    case PublishStarting => OwnsBoth(proc) && Unpublished(proc)
    case OpenDatabase => OwnsBoth(proc) && !proc.handle && proc.published && !proc.bound
    case Prepare => Running(proc) && !proc.bound
    case ClearEndpoint => Running(proc) && !proc.bound
    case Bind => Running(proc) && !proc.bound
    case PublishReady => Running(proc) && proc.bound
    case Serving => Running(proc) && proc.bound
  }

  ghost predicate AtFinalize(proc: Proc, at: FinalizePc, metadata: Owner, endpoint: Owner)
  {
    match at
    case CloseDatabase => Running(proc) && proc.bound
    case StopListener => OwnsBoth(proc) && !proc.handle && proc.published
    case VerifyMetadata => OwnsBoth(proc) && !proc.handle && proc.published
    case RemoveMetadata => OwnsBoth(proc) && !proc.handle && proc.published
    case RemoveOwnEndpoint => OwnsBoth(proc) && !proc.handle && metadata.Nobody?
    case ReleaseDatabase => OwnsBoth(proc) && !proc.handle && metadata.Nobody? && endpoint.Nobody?
    case ReleaseLifecycle =>
      proc.lifecycle.Held? && proc.database.NoLease? && !proc.handle && metadata.Nobody? && endpoint.Nobody?
  }

  ghost predicate AtUndo(proc: Proc, at: UndoPc)
  {
    match at
    case UndoListener => !proc.closeFailed
    case UndoDatabase => !proc.closeFailed
    case UndoVerify => proc.handle ==> proc.closeFailed
    case UndoRemove => proc.lifecycle.Held? && (proc.handle ==> proc.closeFailed)
    case UndoEndpoint => proc.handle ==> proc.closeFailed
    case UndoDatabaseLease => proc.handle ==> proc.closeFailed
    case UndoLifecycleLease => proc.database.NoLease? && (proc.handle ==> proc.closeFailed)
  }

  ghost predicate AtOpener(proc: Proc, at: OpenerPc)
  {
    match at
    case OpenerAcquire => proc.database.NoLease? && !proc.handle
    case OpenerOpen => proc.database.Held? && !proc.handle
    case OpenerMigrate => proc.database.Held? && proc.handle && !proc.closeFailed
    case OpenerAbandon => proc.database.Held? && proc.handle && !proc.closeFailed
    case OpenerUse => proc.database.Held? && proc.handle && !proc.closeFailed
    case OpenerClose => proc.database.Held? && proc.handle && !proc.closeFailed
    case OpenerRelease => proc.database.Held? && (proc.handle ==> proc.closeFailed)
  }

  ghost predicate AtMutation(proc: Proc, at: MutationPc)
  {
    match at
    case MutationStatus => proc.database.NoLease? && !proc.handle
    case MutationStop => proc.database.NoLease? && !proc.handle
    case MutationAcquire => proc.database.NoLease? && !proc.handle
    case MutationOperate => proc.database.Held? && !proc.handle
    case MutationRelease => proc.database.Held? && !proc.handle
    case MutationRestore => proc.database.NoLease? && !proc.handle
  }

  ghost predicate AtCleaner(proc: Proc, at: CleanerPc, metadata: Owner)
  {
    match at
    case CleanerObserve => proc.lifecycle.NoLease?
    case CleanerAcquire => proc.lifecycle.NoLease? && proc.seen.Owner?
    case CleanerVerify => proc.lifecycle.Held? && proc.seen.Owner?
    case CleanerRemove => proc.lifecycle.Held? && proc.seen.Owner? && metadata == proc.seen
    case CleanerEndpoint => proc.lifecycle.Held? && metadata.Nobody?
    case CleanerRelease => proc.lifecycle.Held?
  }

  ghost predicate AtProbe(proc: Proc, at: ProbePc)
  {
    match at
    case ProbeLifecycle => Bare(proc)
    case ProbeDatabase => proc.lifecycle.Held? && proc.database.NoLease?
    case ProbeReleaseDatabase => proc.lifecycle.Held?
    case ProbeReleaseLifecycle => proc.lifecycle.Held? && proc.database.NoLease?
  }

  ghost predicate AtPc(proc: Proc, metadata: Owner, endpoint: Owner)
  {
    match proc.pc
    case InStartup(at) => proc.role.Daemon? && AtStartup(proc, at)
    case InFinalize(at) => proc.role.Daemon? && AtFinalize(proc, at, metadata, endpoint)
    case InUndo(at) => proc.role.Daemon? && AtUndo(proc, at)
    case InOpener(at) => proc.role.Opener? && AtOpener(proc, at)
    case InMutation(at) => proc.role.Mutation? && AtMutation(proc, at)
    case InCleaner(at) => proc.role.Cleaner? && AtCleaner(proc, at, metadata)
    case InProbe(at) => proc.role.Probe? && AtProbe(proc, at)
    case Stuck => proc.database.Held? && !proc.closeFailed && (proc.role.Daemon? ==> proc.lifecycle.Held?)
    case Done => Bare(proc)
  }

  ghost predicate Anywhere(p: nat, proc: Proc, metadata: Owner, endpoint: Owner)
  {
    RoleModes(proc) && FilesOwned(p, proc, metadata, endpoint) && HandleCovered(proc)
  }

  ghost predicate ProcInv(p: nat, proc: Proc, metadata: Owner, endpoint: Owner)
  {
    Anywhere(p, proc, metadata, endpoint) && AtPc(proc, metadata, endpoint)
  }

  /** The leases a process believes it holds are the ones the kernel has. */
  ghost predicate LeaseAgrees(t: LockTable, p: nat, lease: Lease)
  {
    (lease.Held? <==> p in t) && (lease.Held? ==> t[p] == lease.mode)
  }

  ghost predicate Local(s: State, p: nat)
    requires p in s.procs
  {
    && LeaseAgrees(s.lifecycle, p, s.procs[p].lifecycle)
    && LeaseAgrees(s.database, p, s.procs[p].database)
    && ProcInv(p, s.procs[p], s.metadata, s.endpoint)
  }

  ghost predicate Inv(s: State)
  {
    && WellHeld(s.lifecycle) && WellHeld(s.database)
    && s.lifecycle.Keys <= s.procs.Keys && s.database.Keys <= s.procs.Keys
    && forall p :: p in s.procs ==> Local(s, p)
  }

  // ---- Preservation, one process at a time --------------------------------------------

  /** A lease is kept, given up, or newly granted when the table allows it. */
  ghost predicate LeaseMove(t: LockTable, before: Lease, after: Lease)
  {
    after == before || after.NoLease? || (before.NoLease? && Compatible(t, after.mode))
  }

  /** A legal step: the process keeps its invariant and touches the two files only
      under the exclusive lifecycle lease. */
  ghost predicate LegalMove(v: Sight, p: nat, proc: Proc, m: Move)
  {
    && ProcInv(p, m.proc, m.metadata, m.endpoint)
    && LeaseMove(v.lifecycle, proc.lifecycle, m.proc.lifecycle)
    && LeaseMove(v.database, proc.database, m.proc.database)
    && (m.metadata != v.metadata || m.endpoint != v.endpoint ==> proc.lifecycle == Held(Exclusive))
  }

  lemma StartupLegal(v: Sight, p: nat, proc: Proc, at: StartupPc, o: Outcome)
    requires Anywhere(p, proc, v.metadata, v.endpoint)
    requires proc.role.Daemon? && AtStartup(proc, at)
    ensures LegalMove(v, p, proc, StartupMove(v, p, proc, at, o))
  {
    hide Compatible;
    match at
    case ReadMetadata =>
    case TakeLifecycle =>
    case TakeDatabase =>
    case RecheckMetadata =>
    case PublishStarting =>
    case OpenDatabase =>
    case Prepare =>
    case ClearEndpoint =>
    case Bind =>
    case PublishReady =>
    case Serving =>
  }

  lemma FinalizeLegal(v: Sight, p: nat, proc: Proc, at: FinalizePc, o: Outcome)
    requires Anywhere(p, proc, v.metadata, v.endpoint)
    requires proc.role.Daemon? && AtFinalize(proc, at, v.metadata, v.endpoint)
    ensures LegalMove(v, p, proc, FinalizeMove(v, p, proc, at, o))
  {
    hide Compatible;
    match at
    case CloseDatabase =>
    case StopListener =>
    case VerifyMetadata =>
    case RemoveMetadata =>
    case RemoveOwnEndpoint =>
    case ReleaseDatabase =>
    case ReleaseLifecycle =>
  }

  lemma UndoPlaced(v: Sight, p: nat, proc: Proc, at: UndoPc, o: Outcome)
    requires Anywhere(p, proc, v.metadata, v.endpoint)
    requires proc.role.Daemon? && AtUndo(proc, at)
    ensures var m := UndoMove(v, p, proc, at, o); AtPc(m.proc, m.metadata, m.endpoint)
  {
    hide Compatible, FilesOwned, RoleModes;
    match at
    case UndoListener =>
    case UndoDatabase =>
    case UndoVerify =>
    case UndoRemove =>
    case UndoEndpoint =>
    case UndoDatabaseLease =>
    case UndoLifecycleLease =>
  }

  lemma UndoKeepsFiles(v: Sight, p: nat, proc: Proc, at: UndoPc, o: Outcome)
    requires FilesOwned(p, proc, v.metadata, v.endpoint) && proc.role.Daemon?
    requires AtUndo(proc, at)
    ensures var m := UndoMove(v, p, proc, at, o); FilesOwned(p, m.proc, m.metadata, m.endpoint)
  {
    hide Compatible;
    match at
    case UndoListener =>
    case UndoDatabase =>
    case UndoVerify =>
    case UndoRemove =>
    case UndoEndpoint =>
    case UndoDatabaseLease =>
    case UndoLifecycleLease =>
  }

  lemma UndoKeepsHandle(v: Sight, p: nat, proc: Proc, at: UndoPc, o: Outcome)
    requires HandleCovered(proc) && AtUndo(proc, at)
    ensures HandleCovered(UndoMove(v, p, proc, at, o).proc)
  {
    hide Compatible;
    match at
    case UndoListener =>
    case UndoDatabase =>
    case UndoVerify =>
    case UndoRemove =>
    case UndoEndpoint =>
    case UndoDatabaseLease =>
    case UndoLifecycleLease =>
  }

  lemma UndoAnywhere(v: Sight, p: nat, proc: Proc, at: UndoPc, o: Outcome)
    requires Anywhere(p, proc, v.metadata, v.endpoint)
    requires proc.role.Daemon? && AtUndo(proc, at)
    ensures var m := UndoMove(v, p, proc, at, o); Anywhere(p, m.proc, m.metadata, m.endpoint)
  {
    hide Compatible;
    UndoKeepsFiles(v, p, proc, at, o);
    UndoKeepsHandle(v, p, proc, at, o);
    hide FilesOwned, HandleCovered;
    match at
    case UndoListener =>
    case UndoDatabase =>
    case UndoVerify =>
    case UndoRemove =>
    case UndoEndpoint =>
    case UndoDatabaseLease =>
    case UndoLifecycleLease =>
  }

  lemma UndoLegal(v: Sight, p: nat, proc: Proc, at: UndoPc, o: Outcome)
    requires Anywhere(p, proc, v.metadata, v.endpoint)
    requires proc.role.Daemon? && AtUndo(proc, at)
    ensures LegalMove(v, p, proc, UndoMove(v, p, proc, at, o))
  {
    hide Compatible;
    UndoPlaced(v, p, proc, at, o);
    UndoAnywhere(v, p, proc, at, o);
    hide AtPc, Anywhere;
  }

  lemma OpenerLegal(v: Sight, p: nat, proc: Proc, at: OpenerPc, o: Outcome)
    requires Anywhere(p, proc, v.metadata, v.endpoint)
    requires proc.role.Opener? && AtOpener(proc, at)
    ensures LegalMove(v, p, proc, OpenerMove(v, proc, at, o))
  {
    hide Compatible;
    match at
    case OpenerAcquire =>
    case OpenerOpen =>
    case OpenerMigrate =>
    case OpenerAbandon =>
    case OpenerUse =>
    case OpenerClose =>
    case OpenerRelease =>
  }

  lemma MutationLegal(v: Sight, p: nat, proc: Proc, at: MutationPc, o: Outcome)
    requires Anywhere(p, proc, v.metadata, v.endpoint)
    requires proc.role.Mutation? && AtMutation(proc, at)
    ensures LegalMove(v, p, proc, MutationMove(v, proc, at, o))
  {
    hide Compatible;
    match at
    case MutationStatus =>
    case MutationStop =>
    case MutationAcquire =>
    case MutationOperate =>
    case MutationRelease =>
    case MutationRestore =>
  }

  lemma CleanerLegal(v: Sight, p: nat, proc: Proc, at: CleanerPc, o: Outcome)
    requires Anywhere(p, proc, v.metadata, v.endpoint)
    requires proc.role.Cleaner? && AtCleaner(proc, at, v.metadata)
    ensures LegalMove(v, p, proc, CleanerMove(v, proc, at, o))
  {
    hide Compatible;
    match at
    case CleanerObserve =>
    case CleanerAcquire =>
    case CleanerVerify =>
    case CleanerRemove =>
    case CleanerEndpoint =>
    case CleanerRelease =>
  }

  lemma ProbeLegal(v: Sight, p: nat, proc: Proc, at: ProbePc, o: Outcome)
    requires Anywhere(p, proc, v.metadata, v.endpoint)
    requires proc.role.Probe? && AtProbe(proc, at)
    ensures LegalMove(v, p, proc, ProbeMove(v, proc, at, o))
  {
    hide Compatible;
  }

  lemma ProcLegal(v: Sight, p: nat, proc: Proc, o: Outcome)
    requires ProcInv(p, proc, v.metadata, v.endpoint)
    ensures LegalMove(v, p, proc, ProcMove(v, p, proc, o))
  {
    hide Compatible;
    match proc.pc
    case InStartup(at) => StartupLegal(v, p, proc, at, o);
    case InFinalize(at) => FinalizeLegal(v, p, proc, at, o);
    case InUndo(at) => UndoLegal(v, p, proc, at, o);
    case InOpener(at) => OpenerLegal(v, p, proc, at, o);
    case InMutation(at) => MutationLegal(v, p, proc, at, o);
    case InCleaner(at) => CleanerLegal(v, p, proc, at, o);
    case InProbe(at) => ProbeLegal(v, p, proc, at, o);
    case Stuck =>
    case Done =>
  }

  // ---- Preservation, the whole system ----------------------------------------------------

  /** One process's entry of a lock table changes, legally. */
  ghost predicate TableMove(before: LockTable, after: LockTable, p: nat)
  {
    && WellHeld(after)
    && forall q :: q != p ==> (q in after <==> q in before) && (q in before ==> after[q] == before[q])
  }

  lemma ReflectMoves(t: LockTable, p: nat, before: Lease, after: Lease)
    requires WellHeld(t) && LeaseAgrees(t, p, before) && LeaseMove(t, before, after)
    ensures TableMove(t, Reflect(t, p, after), p)
    ensures LeaseAgrees(Reflect(t, p, after), p, after)
  {}

  /** What a step of process p may do to the rest. */
  ghost predicate Framed(s: State, t: State, p: nat)
  {
    && (forall q :: q != p ==> (q in t.procs <==> q in s.procs) && (q in s.procs ==> t.procs[q] == s.procs[q]))
    && TableMove(s.lifecycle, t.lifecycle, p)
    && TableMove(s.database, t.database, p)
    && (t.metadata != s.metadata || t.endpoint != s.endpoint ==> s.lifecycle == map[p := Exclusive])
  }

  /** Without the lifecycle lease a process says nothing about the two files. */
  lemma FilesUnseen(p: nat, proc: Proc, m1: Owner, e1: Owner, m2: Owner, e2: Owner)
    requires ProcInv(p, proc, m1, e1) && proc.lifecycle.NoLease?
    ensures ProcInv(p, proc, m2, e2)
  {}

  lemma OthersKeepLocal(s: State, t: State, p: nat, q: nat)
    requires Inv(s) && Framed(s, t, p) && q != p && q in s.procs
    ensures Local(t, q)
  {
    assert Local(s, q);
    if t.metadata != s.metadata || t.endpoint != s.endpoint {
      assert q !in s.lifecycle;
      FilesUnseen(q, s.procs[q], s.metadata, s.endpoint, t.metadata, t.endpoint);
    }
  }

  lemma FramedKeepsInv(s: State, t: State, p: nat)
    requires Inv(s) && Framed(s, t, p) && (p in t.procs ==> Local(t, p))
    requires p !in t.procs ==> p !in t.lifecycle && p !in t.database
    ensures Inv(t)
  {
    forall q | q in t.procs ensures Local(t, q) {
      if q != p {
        OthersKeepLocal(s, t, p, q);
      }
    }
  }

  lemma HolderAlone(s: State, p: nat)
    requires Inv(s) && p in s.procs
    ensures s.procs[p].lifecycle == Held(Exclusive) ==> s.lifecycle == map[p := Exclusive]
    ensures s.procs[p].database == Held(Exclusive) ==> s.database == map[p := Exclusive]
  {
    assert Local(s, p);
    if s.procs[p].lifecycle == Held(Exclusive) {
      ExclusiveIsAlone(s.lifecycle, p);
    }
    if s.procs[p].database == Held(Exclusive) {
      ExclusiveIsAlone(s.database, p);
    }
  }

  lemma PerformFramed(s: State, p: nat, m: Move)
    requires Inv(s) && p in s.procs && LegalMove(Look(s), p, s.procs[p], m)
    ensures Framed(s, Perform(s, p, m), p) && Local(Perform(s, p, m), p)
  {
    hide Compatible;
    assert Local(s, p);
    HolderAlone(s, p);
    ReflectMoves(s.lifecycle, p, s.procs[p].lifecycle, m.proc.lifecycle);
    ReflectMoves(s.database, p, s.procs[p].database, m.proc.database);
  }

  lemma ActFramed(s: State, p: nat, o: Outcome)
    requires Inv(s) && p in s.procs
    ensures Framed(s, Step(s, Act(p, o)), p) && p in Step(s, Act(p, o)).procs && Local(Step(s, Act(p, o)), p)
  {
    hide ProcInv, ProcMove, LegalMove, Compatible;
    assert Local(s, p);
    ProcLegal(Look(s), p, s.procs[p], o);
    PerformFramed(s, p, ProcMove(Look(s), p, s.procs[p], o));
  }

  lemma SpawnedInv(p: nat, role: Role, metadata: Owner, endpoint: Owner)
    ensures ProcInv(p, NewProc(role), metadata, endpoint)
    ensures NewProc(role).lifecycle.NoLease? && NewProc(role).database.NoLease?
  {}

  lemma SpawnLocal(s: State, p: nat, role: Role)
    requires Inv(s) && p !in s.procs
    ensures Local(s.(procs := s.procs[p := NewProc(role)]), p)
  {
    hide ProcInv;
    SpawnedInv(p, role, s.metadata, s.endpoint);
  }

  lemma StepKeepsInv(s: State, e: Event)
    requires Inv(s)
    ensures Inv(Step(s, e)) && Framed(s, Step(s, e), e.pid)
  {
    hide ProcInv, ProcMove, LegalMove, Perform, Local, Compatible;
    var p := e.pid;
    match e {
      case Spawn(_, role) =>
        if p !in s.procs {
          SpawnLocal(s, p, role);
        }
      case Act(_, o) =>
        if p in s.procs {
          ActFramed(s, p, o);
        }
      case Crash(_) =>
    }
    FramedKeepsInv(s, Step(s, e), p);
  }

  lemma {:induction false} RunKeepsInv(s: State, es: seq<Event>)
    requires Inv(s)
    ensures Inv(Run(s, es))
    decreases |es|
  {
    if es != [] {
      StepKeepsInv(s, es[0]);
      RunKeepsInv(Step(s, es[0]), es[1..]);
    }
  }

  lemma Always(es: seq<Event>)
    ensures Inv(Run(INITIAL, es))
  {
    RunKeepsInv(INITIAL, es);
  }

  // ---- Named statements ------------------------------------------------------------------

  predicate Serves(proc: Proc)
  {
    proc.pc.InStartup? && proc.pc.startup.Serving?
  }

  /** The last statement of an orderly close. */
  predicate FreesLifecycle(proc: Proc)
  {
    proc.pc.InFinalize? && proc.pc.finalize.ReleaseLifecycle?
  }

  predicate Operates(proc: Proc)
  {
    proc.pc.InMutation? && proc.pc.mutation.MutationOperate?
  }

  predicate Restores(proc: Proc)
  {
    proc.pc.InMutation? && proc.pc.mutation.MutationRestore?
  }

  predicate RemovesStale(proc: Proc)
  {
    proc.pc.InCleaner? && proc.pc.cleaner.CleanerRemove?
  }

  // ---- The database ------------------------------------------------------------------------

  predicate HasOpen(s: State, p: nat)
  {
    p in s.procs && s.procs[p].handle
  }

  predicate IsDaemon(s: State, p: nat)
  {
    p in s.procs && s.procs[p].role.Daemon?
  }

  predicate CloseFailed(s: State, p: nat)
  {
    p in s.procs && s.procs[p].closeFailed
  }

  /** In every run a daemon that has the database open, and did not fail to close it,
      is the only holder of the database lease, and holds it exclusively; any other
      open handle belongs to a process whose own close failed. */
  lemma DaemonOwnsItsDatabase(es: seq<Event>, p: nat)
    requires var s := Run(INITIAL, es); IsDaemon(s, p) && HasOpen(s, p) && !CloseFailed(s, p)
    ensures var s := Run(INITIAL, es);
            && s.database == map[p := Exclusive]
            && forall q :: q != p && HasOpen(s, q) ==> CloseFailed(s, q)
  {
    var s := Run(INITIAL, es);
    Always(es);
    assert Local(s, p);
    HolderAlone(s, p);
    forall q | q != p && HasOpen(s, q) ensures CloseFailed(s, q) {
      assert Local(s, q);
    }
  }

  /** A database handle is open without the lease exactly when closing it threw on a
      path that ignores the error, and the lease has since been given up. */
  lemma OpenWithoutLeaseExactly(es: seq<Event>, p: nat)
    requires p in Run(INITIAL, es).procs
    ensures var proc := Run(INITIAL, es).procs[p];
            (proc.handle && proc.database.NoLease?) <==> (proc.closeFailed && proc.database.NoLease?)
  {
    Always(es);
    assert Local(Run(INITIAL, es), p);
  }

  /** The two statements that close a database and ignore an error from it. */
  predicate MayLeak(proc: Proc)
  {
    || (proc.pc.InUndo? && proc.pc.undo.UndoDatabase? && proc.handle)
    || (proc.pc.InOpener? && proc.pc.opener.OpenerAbandon?)
  }

  /** The event in which process p ignores an error from closing its handle: in the
      catch block of `startDaemon`, or in the catch block of a direct `open`. */
  predicate IgnoresCloseError(s: State, e: Event, p: nat)
  {
    && e.Act? && e.pid == p && p in s.procs && !Went(e.outcome)
    && MayLeak(s.procs[p])
  }

  lemma {:induction false} RunSnoc(s: State, es: seq<Event>, e: Event)
    ensures Run(s, es + [e]) == Step(Run(s, es), e)
    decreases |es|
  {
    if es == [] {
      assert [e][1..] == [];
    } else {
      assert (es + [e])[1..] == es[1..] + [e];
      RunSnoc(Step(s, es[0]), es[1..], e);
    }
  }

  lemma UndoCloseFailed(v: Sight, p: nat, proc: Proc, at: UndoPc, o: Outcome)
    ensures UndoMove(v, p, proc, at, o).proc.closeFailed <==>
            proc.closeFailed || (!Went(o) && at.UndoDatabase? && proc.handle)
  {
    hide Compatible;
  }

  lemma OpenerCloseFailed(v: Sight, proc: Proc, at: OpenerPc, o: Outcome)
    ensures OpenerMove(v, proc, at, o).proc.closeFailed <==>
            proc.closeFailed || (!Went(o) && at.OpenerAbandon?)
  {
    hide Compatible;
    match at
    case OpenerAcquire =>
    case OpenerOpen =>
    case OpenerMigrate =>
    case OpenerAbandon =>
    case OpenerUse =>
    case OpenerClose =>
    case OpenerRelease =>
  }

  lemma CloseFailedMove(v: Sight, p: nat, proc: Proc, o: Outcome)
    requires ProcInv(p, proc, v.metadata, v.endpoint)
    ensures ProcMove(v, p, proc, o).proc.closeFailed <==>
            proc.closeFailed
            || (!Went(o) && MayLeak(proc))
  {
    hide Compatible;
    match proc.pc
    case InUndo(at) => UndoCloseFailed(v, p, proc, at, o);
    case InOpener(at) => OpenerCloseFailed(v, proc, at, o);
    case InStartup(at) => match at { case _ => }
    case InFinalize(at) => match at { case _ => }
    case InMutation(at) => match at { case _ => }
    case InCleaner(at) => match at { case _ => }
    case InProbe(at) => match at { case _ => }
    case Stuck =>
    case Done =>
  }

  lemma CloseFailedStep(s: State, e: Event, p: nat)
    requires Inv(s)
    ensures CloseFailed(Step(s, e), p) <==>
            (CloseFailed(s, p) && e != Crash(p)) || IgnoresCloseError(s, e, p)
  {
    hide Compatible;
    if p in s.procs {
      assert Local(s, p);
      if e.Act? && e.pid == p {
        CloseFailedMove(Look(s), p, s.procs[p], e.outcome);
      }
    }
  }

  /** A process carries a failed close exactly when its history contains such an
      event that no crash followed. */
  lemma {:induction false} CloseFailedExactly(es: seq<Event>, p: nat)
    ensures CloseFailed(Run(INITIAL, es), p) <==>
            exists i :: 0 <= i < |es| && IgnoresCloseError(Run(INITIAL, es[..i]), es[i], p)
                        && forall j :: i < j < |es| ==> es[j] != Crash(p)
    decreases |es|
  {
    if es != [] {
      var n := |es| - 1;
      var front, e := es[..n], es[n];
      assert es == front + [e];
      RunSnoc(INITIAL, front, e);
      Always(front);
      CloseFailedStep(Run(INITIAL, front), e, p);
      CloseFailedExactly(front, p);
      forall i | 0 <= i < n ensures front[..i] == es[..i] {}
      if CloseFailed(Run(INITIAL, front), p) && e != Crash(p) {
        var i :| 0 <= i < n && IgnoresCloseError(Run(INITIAL, front[..i]), front[i], p)
                 && forall j :: i < j < n ==> front[j] != Crash(p);
        assert IgnoresCloseError(Run(INITIAL, es[..i]), es[i], p);
      } else if IgnoresCloseError(Run(INITIAL, front), e, p) {
        assert es[..n] == front;
      }
    }
  }

  /** So no two processes have the database open with a daemon among them, unless a
      live process ignored an error from closing it. */
  lemma ExclusiveUnlessCloseErrorIgnored(es: seq<Event>, p: nat, q: nat)
    requires var s := Run(INITIAL, es); p != q && IsDaemon(s, p) && HasOpen(s, p) && HasOpen(s, q)
    ensures exists i, r :: 0 <= i < |es| && (r == p || r == q)
                           && IgnoresCloseError(Run(INITIAL, es[..i]), es[i], r)
                           && forall j :: i < j < |es| ==> es[j] != Crash(r)
  {
    var r := if CloseFailed(Run(INITIAL, es), p) then p else q;
    if r == q {
      DaemonOwnsItsDatabase(es, p);
    }
    CloseFailedExactly(es, r);
    hide Run, IgnoresCloseError;
    var i :| 0 <= i < |es| && IgnoresCloseError(Run(INITIAL, es[..i]), es[i], r)
             && forall j :: i < j < |es| ==> es[j] != Crash(r);
  }

  // ---- The metadata and the endpoint -----------------------------------------------------------

  predicate Published(s: State, p: nat)
  {
    p in s.procs && s.procs[p].published
  }

  /** In every run: metadata a live daemon published, and neither removed nor gave up,
      is the metadata on disk, under its exclusive lease; a serving daemon's metadata
      and socket are its own. */
  lemma PublishedIsOnDisk(es: seq<Event>, p: nat)
    requires p in Run(INITIAL, es).procs
    ensures var s := Run(INITIAL, es);
            && (Published(s, p) ==> s.metadata == Owner(p) && s.lifecycle == map[p := Exclusive])
            && (s.procs[p].bound ==> s.endpoint == Owner(p) && s.lifecycle == map[p := Exclusive])
            && (Serves(s.procs[p]) ==> Published(s, p) && s.procs[p].bound)
  {
    Always(es);
    assert Local(Run(INITIAL, es), p);
    HolderAlone(Run(INITIAL, es), p);
  }

  /** No step of any other process - stale cleaner, second daemon, probe, opener or
      mutation, crashing or not - removes or replaces them. */
  lemma OthersLeaveItAlone(es: seq<Event>, e: Event, p: nat)
    requires var s := Run(INITIAL, es); p in s.procs && (Published(s, p) || s.procs[p].bound) && e.pid != p
    ensures var s := Run(INITIAL, es); var t := Step(s, e);
            t.metadata == s.metadata && t.endpoint == s.endpoint && p in t.procs && t.procs[p] == s.procs[p]
  {
    PublishedIsOnDisk(es, p);
    Always(es);
    StepKeepsInv(Run(INITIAL, es), e);
  }

  /** A cleaner about to remove metadata removes what nobody alive claims. */
  lemma CleanerRemovesOnlyStale(es: seq<Event>, c: nat, q: nat)
    requires var s := Run(INITIAL, es); c in s.procs && RemovesStale(s.procs[c]) && q in s.procs
    ensures var s := Run(INITIAL, es);
            s.metadata == s.procs[c].seen && !s.procs[q].published && !s.procs[q].bound
  {
    Always(es);
    assert Local(Run(INITIAL, es), c) && Local(Run(INITIAL, es), q);
    HolderAlone(Run(INITIAL, es), c);
  }

  /** When an orderly close frees the lifecycle lease, its database is closed and its
      database lease free, and metadata and endpoint are already gone. */
  lemma CloseLeavesNothing(es: seq<Event>, p: nat, o: Outcome)
    requires var s := Run(INITIAL, es); p in s.procs && FreesLifecycle(s.procs[p])
    ensures var s := Run(INITIAL, es); var t := Step(s, Act(p, o));
            && s.lifecycle == map[p := Exclusive] && p !in s.database && !s.procs[p].handle
            && s.metadata == Nobody && s.endpoint == Nobody
            && t.lifecycle == map[] && t.metadata == Nobody && t.endpoint == Nobody
            && t.procs[p].pc == Done
  {
    Always(es);
    assert Local(Run(INITIAL, es), p);
    HolderAlone(Run(INITIAL, es), p);
  }

  // ---- Extension mutations ------------------------------------------------------------------------

  /** While a mutation operates no daemon has the database open, unless that daemon
      failed to close it; and when the mutation comes to restart the daemon, its own
      lease is free and its handle closed. */
  lemma MutationExcludesDaemons(es: seq<Event>, m: nat, d: nat)
    requires var s := Run(INITIAL, es); m in s.procs && IsDaemon(s, d)
    ensures var s := Run(INITIAL, es);
            && (Operates(s.procs[m]) && HasOpen(s, d) ==> CloseFailed(s, d))
            && (Restores(s.procs[m]) ==> m !in s.database && !s.procs[m].handle)
  {
    var s := Run(INITIAL, es);
    Always(es);
    assert Local(s, m) && Local(s, d);
    HolderAlone(s, d);
  }

  // ---- Recovery --------------------------------------------------------------------------------------

  function Succeed(s: State, p: nat, n: nat): State
    decreases n
  {
    if n == 0 then s else Step(Succeed(s, p, n - 1), Act(p, Succeeds))
  }

  function Starting(s: State, p: nat, at: StartupPc, lifecycle: bool, database: bool, handle: bool,
                    wrote: bool, bound: bool, endpoint: Owner): State
  {
    var lease := (held: bool) => if held then Held(Exclusive) else NoLease;
    var table := (held: bool) => if held then map[p := Exclusive] else map[];
    State(s.procs[p := Proc(Daemon, InStartup(at), lease(lifecycle), lease(database), handle, wrote, wrote, bound, false, Nobody)],
          table(lifecycle), table(database), if wrote then Owner(p) else s.metadata, endpoint)
  }

  lemma LastStep(s: State, p: nat)
    ensures var t := Step(Starting(s, p, PublishReady, true, true, true, true, true, Owner(p)), Act(p, Succeeds));
            && p in t.procs && Serves(t.procs[p]) && t.metadata == Owner(p) && t.endpoint == Owner(p)
            && t.lifecycle == map[p := Exclusive] && t.database == map[p := Exclusive] && IsDaemon(t, p) && HasOpen(t, p)
  {
    hide Compatible;
  }

  lemma OpensDatabase(s: State, p: nat)
    ensures Step(Starting(s, p, OpenDatabase, true, true, false, true, false, s.endpoint), Act(p, Succeeds))
            == Starting(s, p, Prepare, true, true, true, true, false, s.endpoint)
    ensures Step(Starting(s, p, Prepare, true, true, true, true, false, s.endpoint), Act(p, Succeeds))
            == Starting(s, p, ClearEndpoint, true, true, true, true, false, s.endpoint)
  {
    hide Compatible;
  }

  lemma ClearsEndpoint(s: State, p: nat)
    ensures Step(Starting(s, p, ClearEndpoint, true, true, true, true, false, s.endpoint), Act(p, Succeeds))
            == Starting(s, p, Bind, true, true, true, true, false, Nobody)
    ensures Step(Starting(s, p, Bind, true, true, true, true, false, Nobody), Act(p, Succeeds))
            == Starting(s, p, PublishReady, true, true, true, true, true, Owner(p))
  {
    hide Compatible;
  }

  lemma TakesLifecycle(s: State, p: nat)
    requires s.lifecycle == map[] && s.database == map[] && p !in s.procs
    ensures Step(Step(s, Spawn(p, Daemon)), Act(p, Succeeds))
            == Starting(s, p, TakeLifecycle, false, false, false, false, false, s.endpoint)
    ensures Step(Starting(s, p, TakeLifecycle, false, false, false, false, false, s.endpoint), Act(p, Succeeds))
            == Starting(s, p, TakeDatabase, true, false, false, false, false, s.endpoint)
  {}

  lemma TakesDatabase(s: State, p: nat)
    ensures Step(Starting(s, p, TakeDatabase, true, false, false, false, false, s.endpoint), Act(p, Succeeds))
            == Starting(s, p, RecheckMetadata, true, true, false, false, false, s.endpoint)
    ensures Step(Starting(s, p, RecheckMetadata, true, true, false, false, false, s.endpoint), Act(p, Succeeds))
            == Starting(s, p, PublishStarting, true, true, false, false, false, s.endpoint)
    ensures Step(Starting(s, p, PublishStarting, true, true, false, false, false, s.endpoint), Act(p, Succeeds))
            == Starting(s, p, OpenDatabase, true, true, false, true, false, s.endpoint)
  {}

  lemma RecoversLeases(s: State, p: nat)
    requires s.lifecycle == map[] && s.database == map[] && p !in s.procs
    ensures Succeed(Step(s, Spawn(p, Daemon)), p, 5) ==
            Starting(s, p, OpenDatabase, true, true, false, true, false, s.endpoint)
  {
    var s0 := Step(s, Spawn(p, Daemon));
    TakesLifecycle(s, p);
    TakesDatabase(s, p);
    hide Step, Starting;
    assert Succeed(s0, p, 0) == s0;
    assert Succeed(s0, p, 1) == Starting(s, p, TakeLifecycle, false, false, false, false, false, s.endpoint);
    assert Succeed(s0, p, 2) == Starting(s, p, TakeDatabase, true, false, false, false, false, s.endpoint);
    assert Succeed(s0, p, 3) == Starting(s, p, RecheckMetadata, true, true, false, false, false, s.endpoint);
    assert Succeed(s0, p, 4) == Starting(s, p, PublishStarting, true, true, false, false, false, s.endpoint);
  }

  lemma RecoversBinding(s: State, p: nat)
    requires s.lifecycle == map[] && s.database == map[] && p !in s.procs
    ensures Succeed(Step(s, Spawn(p, Daemon)), p, 9) ==
            Starting(s, p, PublishReady, true, true, true, true, true, Owner(p))
  {
    var s0 := Step(s, Spawn(p, Daemon));
    RecoversLeases(s, p);
    OpensDatabase(s, p);
    ClearsEndpoint(s, p);
    hide Step, Starting;
    assert Succeed(s0, p, 6) == Starting(s, p, Prepare, true, true, true, true, false, s.endpoint);
    assert Succeed(s0, p, 7) == Starting(s, p, ClearEndpoint, true, true, true, true, false, s.endpoint);
    assert Succeed(s0, p, 8) == Starting(s, p, Bind, true, true, true, true, false, Nobody);
  }

  /** Whatever files crashed processes left behind, once no lease is held a fresh
      daemon whose steps succeed gets to serving, published and bound. */
  lemma FreshDaemonRecovers(s: State, p: nat)
    requires s.lifecycle == map[] && s.database == map[] && p !in s.procs
    ensures var t := Succeed(Step(s, Spawn(p, Daemon)), p, 10);
            && Serves(t.procs[p]) && t.metadata == Owner(p) && t.endpoint == Owner(p)
            && t.lifecycle == map[p := Exclusive] && t.database == map[p := Exclusive] && IsDaemon(t, p) && HasOpen(t, p)
  {
    RecoversBinding(s, p);
    LastStep(s, p);
    hide Step, Starting;
  }

  // ---- The other roles get their work done -----------------------------------------------------------

  function Cleaning(s: State, c: nat, at: CleanerPc, held: bool, metadata: Owner, endpoint: Owner): State
  {
    s.(procs := s.procs[c := Proc(Cleaner, InCleaner(at), if held then Held(Exclusive) else NoLease, NoLease,
                                  false, false, false, false, false, s.metadata)],
       lifecycle := if held then map[c := Exclusive] else map[], metadata := metadata, endpoint := endpoint)
  }

  lemma CleanerTakes(s: State, c: nat)
    requires s.lifecycle == map[] && c !in s.procs && c !in s.database && s.metadata.Owner?
    ensures Succeed(Step(s, Spawn(c, Cleaner)), c, 2) == Cleaning(s, c, CleanerVerify, true, s.metadata, s.endpoint)
  {
    var s0 := Step(s, Spawn(c, Cleaner));
    assert Succeed(s0, c, 0) == s0;
    assert Succeed(s0, c, 1) == Cleaning(s, c, CleanerAcquire, false, s.metadata, s.endpoint);
  }

  lemma CleanerVerifies(s: State, c: nat)
    requires c !in s.database && s.metadata.Owner?
    ensures Step(Cleaning(s, c, CleanerVerify, true, s.metadata, s.endpoint), Act(c, Succeeds))
            == Cleaning(s, c, CleanerRemove, true, s.metadata, s.endpoint)
    ensures Step(Cleaning(s, c, CleanerRemove, true, s.metadata, s.endpoint), Act(c, Succeeds))
            == Cleaning(s, c, CleanerEndpoint, true, Nobody, s.endpoint)
  {
    hide Compatible;
  }

  lemma CleanerUnbinds(s: State, c: nat)
    requires c !in s.database
    ensures Step(Cleaning(s, c, CleanerEndpoint, true, Nobody, s.endpoint), Act(c, Succeeds))
            == Cleaning(s, c, CleanerRelease, true, Nobody, Nobody)
  {
    hide Compatible;
  }

  lemma CleanerRemoves(s: State, c: nat)
    requires c !in s.database && s.metadata.Owner?
    ensures var u := Cleaning(s, c, CleanerVerify, true, s.metadata, s.endpoint);
            Succeed(u, c, 3) == Cleaning(s, c, CleanerRelease, true, Nobody, Nobody)
  {
    CleanerVerifies(s, c);
    CleanerUnbinds(s, c);
    hide Step, Cleaning;
    var u := Cleaning(s, c, CleanerVerify, true, s.metadata, s.endpoint);
    assert Succeed(u, c, 0) == u;
    assert Succeed(u, c, 1) == Cleaning(s, c, CleanerRemove, true, s.metadata, s.endpoint);
    assert Succeed(u, c, 2) == Cleaning(s, c, CleanerEndpoint, true, Nobody, s.endpoint);
  }

  lemma {:induction false} SucceedMore(s: State, p: nat, m: nat, n: nat)
    ensures Succeed(s, p, m + n) == Succeed(Succeed(s, p, m), p, n)
    decreases n
  {
    hide Step;
    if n > 0 {
      SucceedMore(s, p, m, n - 1);
    }
  }

  lemma CleanerReleases(s: State, c: nat)
    requires c !in s.database
    ensures var t := Step(Cleaning(s, c, CleanerRelease, true, Nobody, Nobody), Act(c, Succeeds));
            && t.metadata == Nobody && t.endpoint == Nobody && t.lifecycle == map[] && t.database == s.database
            && c in t.procs && t.procs[c].pc == Done
  {
    hide Compatible;
    assert map[c := Exclusive] - {c} == map[];
  }

  /** When nobody holds the lifecycle lease, a cleaner whose steps succeed removes the
      metadata and the socket that crashed processes left, and gives the lease back. */
  lemma CleanerCleans(s: State, c: nat)
    requires s.lifecycle == map[] && c !in s.procs && c !in s.database && s.metadata.Owner?
    ensures var t := Succeed(Step(s, Spawn(c, Cleaner)), c, 6);
            && t.metadata == Nobody && t.endpoint == Nobody && t.lifecycle == map[] && t.database == s.database
            && c in t.procs && t.procs[c].pc == Done
  {
    var s0 := Step(s, Spawn(c, Cleaner));
    CleanerTakes(s, c);
    CleanerRemoves(s, c);
    CleanerReleases(s, c);
    SucceedMore(s0, c, 2, 3);
    hide Step, Cleaning;
  }

  function Opening(s: State, p: nat, at: OpenerPc, held: bool, handle: bool): State
  {
    s.(procs := s.procs[p := Proc(Opener, InOpener(at), NoLease, if held then Held(Shared) else NoLease,
                                  handle, false, false, false, false, Nobody)],
       database := if held then s.database[p := Shared] else s.database)
  }

  lemma OpenerTakes(s: State, p: nat)
    requires Compatible(s.database, Shared) && p !in s.procs && p !in s.lifecycle
    ensures Succeed(Step(s, Spawn(p, Opener)), p, 3) == Opening(s, p, OpenerUse, true, true)
  {
    var s0 := Step(s, Spawn(p, Opener));
    assert Succeed(s0, p, 0) == s0;
    assert Succeed(s0, p, 1) == Opening(s, p, OpenerOpen, true, false);
    hide Compatible;
    assert Succeed(s0, p, 2) == Opening(s, p, OpenerMigrate, true, true);
  }

  lemma OpenerCloses(s: State, p: nat)
    requires p !in s.lifecycle
    ensures Step(Opening(s, p, OpenerUse, true, true), Act(p, Succeeds)) == Opening(s, p, OpenerClose, true, true)
    ensures Step(Opening(s, p, OpenerClose, true, true), Act(p, Succeeds)) == Opening(s, p, OpenerRelease, true, false)
  {
    hide Compatible;
  }

  lemma OpenerLeaves(s: State, p: nat)
    requires p !in s.database && p !in s.lifecycle
    ensures var t := Step(Opening(s, p, OpenerRelease, true, false), Act(p, Succeeds));
            && t.database == s.database && t.lifecycle == s.lifecycle && p in t.procs
            && t.procs[p].pc == Done && !t.procs[p].handle
  {
    hide Compatible;
    assert s.database[p := Shared] - {p} == s.database;
  }

  lemma OpenerGives(s: State, p: nat)
    requires p !in s.database && p !in s.lifecycle
    ensures var u := Opening(s, p, OpenerUse, true, true);
            var t := Succeed(u, p, 3);
            && t.database == s.database && t.lifecycle == s.lifecycle && p in t.procs
            && t.procs[p].pc == Done && !t.procs[p].handle
  {
    OpenerCloses(s, p);
    OpenerLeaves(s, p);
    hide Step, Opening;
    var u := Opening(s, p, OpenerUse, true, true);
    assert Succeed(u, p, 0) == u;
    assert Succeed(u, p, 1) == Opening(s, p, OpenerClose, true, true);
    assert Succeed(u, p, 2) == Opening(s, p, OpenerRelease, true, false);
  }

  lemma DoneStep(s: State, p: nat)
    requires p in s.procs && s.procs[p].pc == Done && s.procs[p].lifecycle.NoLease? && s.procs[p].database.NoLease?
    requires p !in s.lifecycle && p !in s.database
    ensures Step(s, Act(p, Succeeds)) == s
  {
    assert s.procs[p := s.procs[p]] == s.procs && s.lifecycle - {p} == s.lifecycle && s.database - {p} == s.database;
  }

  lemma {:induction false} DoneStays(s: State, p: nat, n: nat)
    requires p in s.procs && s.procs[p].pc == Done && s.procs[p].lifecycle.NoLease? && s.procs[p].database.NoLease?
    requires p !in s.lifecycle && p !in s.database
    ensures Succeed(s, p, n) == s
    decreases n
  {
    hide Step;
    if n > 0 {
      DoneStays(s, p, n - 1);
      DoneStep(s, p);
    }
  }

  /** A direct opener whose steps succeed has the database open, under a shared lease,
      exactly when the lease was compatible with the holders; and leaves as it came. */
  lemma OpenerOpensExactly(s: State, p: nat)
    requires p !in s.procs && p !in s.database && p !in s.lifecycle
    ensures var u, t := Succeed(Step(s, Spawn(p, Opener)), p, 3), Succeed(Step(s, Spawn(p, Opener)), p, 6);
            && (HasOpen(u, p) <==> Compatible(s.database, Shared))
            && (HasOpen(u, p) ==> u.database == s.database[p := Shared])
            && t.database == s.database && p in t.procs && t.procs[p].pc == Done && !t.procs[p].handle
  {
    var s0 := Step(s, Spawn(p, Opener));
    if Compatible(s.database, Shared) {
      OpenerTakes(s, p);
      OpenerGives(s, p);
      SucceedMore(s0, p, 3, 3);
    } else {
      var gone := s.(procs := s.procs[p := NewProc(Opener).(pc := Done)]);
      assert Succeed(s0, p, 0) == s0;
      assert Succeed(s0, p, 1) == gone;
      DoneStays(gone, p, 2);
      DoneStays(gone, p, 5);
      SucceedMore(s0, p, 1, 2);
      SucceedMore(s0, p, 1, 5);
    }
  }

  function Successes(p: nat, n: nat): seq<Event>
  {
    if n == 0 then [] else Successes(p, n - 1) + [Act(p, Succeeds)]
  }

  lemma {:induction false} RunSuccesses(s: State, es: seq<Event>, p: nat, n: nat)
    ensures Run(s, es + Successes(p, n)) == Succeed(Run(s, es), p, n)
    decreases n
  {
    if n == 0 {
      assert es + [] == es;
    } else {
      RunSuccesses(s, es, p, n - 1);
      assert es + Successes(p, n) == es + Successes(p, n - 1) + [Act(p, Succeeds)];
      RunSnoc(s, es + Successes(p, n - 1), Act(p, Succeeds));
    }
  }

  // ---- Every process ends -------------------------------------------------------------------------------

  /** How many statements are at most still ahead. */
  function StepsLeft(pc: Pc): nat
  {
    match pc
    case InStartup(at) =>
      (match at
       case ReadMetadata => 18 case TakeLifecycle => 17 case TakeDatabase => 16 case RecheckMetadata => 15
       case PublishStarting => 14 case OpenDatabase => 13 case Prepare => 12 case ClearEndpoint => 11
       case Bind => 10 case PublishReady => 9 case Serving => 8)
    case InFinalize(at) =>
      (match at
       case CloseDatabase => 7 case StopListener => 6 case VerifyMetadata => 5 case RemoveMetadata => 4
       case RemoveOwnEndpoint => 3 case ReleaseDatabase => 2 case ReleaseLifecycle => 1)
    case InUndo(at) =>
      (match at
       case UndoListener => 7 case UndoDatabase => 6 case UndoVerify => 5 case UndoRemove => 4
       case UndoEndpoint => 3 case UndoDatabaseLease => 2 case UndoLifecycleLease => 1)
    case InOpener(at) =>
      (match at
       case OpenerAcquire => 6 case OpenerOpen => 5 case OpenerMigrate => 4 case OpenerAbandon => 3
       case OpenerUse => 3 case OpenerClose => 2 case OpenerRelease => 1)
    case InMutation(at) =>
      (match at
       case MutationStatus => 6 case MutationStop => 5 case MutationAcquire => 4 case MutationOperate => 3
       case MutationRelease => 2 case MutationRestore => 1)
    case InCleaner(at) =>
      (match at
       case CleanerObserve => 6 case CleanerAcquire => 5 case CleanerVerify => 4 case CleanerRemove => 3
       case CleanerEndpoint => 2 case CleanerRelease => 1)
    case InProbe(at) =>
      (match at
       case ProbeLifecycle => 4 case ProbeDatabase => 3 case ProbeReleaseDatabase => 2 case ProbeReleaseLifecycle => 1)
    case Stuck => 0
    case Done => 0
  }

  lemma StartupProgresses(v: Sight, p: nat, proc: Proc, at: StartupPc, o: Outcome)
    ensures StepsLeft(StartupMove(v, p, proc, at, o).proc.pc) < StepsLeft(InStartup(at))
  {
    hide Compatible;
  }

  lemma FinalizeProgresses(v: Sight, p: nat, proc: Proc, at: FinalizePc, o: Outcome)
    ensures StepsLeft(FinalizeMove(v, p, proc, at, o).proc.pc) < StepsLeft(InFinalize(at))
  {
    hide Compatible;
  }

  lemma UndoProgresses(v: Sight, p: nat, proc: Proc, at: UndoPc, o: Outcome)
    ensures StepsLeft(UndoMove(v, p, proc, at, o).proc.pc) < StepsLeft(InUndo(at))
  {
    hide Compatible;
  }

  lemma OpenerProgresses(v: Sight, proc: Proc, at: OpenerPc, o: Outcome)
    ensures StepsLeft(OpenerMove(v, proc, at, o).proc.pc) < StepsLeft(InOpener(at))
  {
    hide Compatible;
  }

  lemma MutationProgresses(v: Sight, proc: Proc, at: MutationPc, o: Outcome)
    ensures StepsLeft(MutationMove(v, proc, at, o).proc.pc) < StepsLeft(InMutation(at))
  {
    hide Compatible;
  }

  lemma CleanerProgresses(v: Sight, proc: Proc, at: CleanerPc, o: Outcome)
    ensures StepsLeft(CleanerMove(v, proc, at, o).proc.pc) < StepsLeft(InCleaner(at))
  {
    hide Compatible;
  }

  lemma ProbeProgresses(v: Sight, proc: Proc, at: ProbePc, o: Outcome)
    ensures StepsLeft(ProbeMove(v, proc, at, o).proc.pc) < StepsLeft(InProbe(at))
  {
    hide Compatible;
  }

  lemma MoveProgresses(v: Sight, p: nat, proc: Proc, o: Outcome)
    ensures var pc := ProcMove(v, p, proc, o).proc.pc;
            if StepsLeft(proc.pc) > 0 then StepsLeft(pc) < StepsLeft(proc.pc) else pc == proc.pc
  {
    match proc.pc
    case InStartup(at) => StartupProgresses(v, p, proc, at, o);
    case InFinalize(at) => FinalizeProgresses(v, p, proc, at, o);
    case InUndo(at) => UndoProgresses(v, p, proc, at, o);
    case InOpener(at) => OpenerProgresses(v, proc, at, o);
    case InMutation(at) => MutationProgresses(v, proc, at, o);
    case InCleaner(at) => CleanerProgresses(v, proc, at, o);
    case InProbe(at) => ProbeProgresses(v, proc, at, o);
    case Stuck =>
    case Done =>
    hide StartupMove, FinalizeMove, UndoMove, OpenerMove, MutationMove, CleanerMove, ProbeMove;
  }

  lemma ActProgresses(s: State, p: nat, o: Outcome)
    requires p in s.procs
    ensures var t := Step(s, Act(p, o));
            && p in t.procs
            && if StepsLeft(s.procs[p].pc) > 0 then StepsLeft(t.procs[p].pc) < StepsLeft(s.procs[p].pc)
               else t.procs[p].pc == s.procs[p].pc
  {
    MoveProgresses(Look(s), p, s.procs[p], o);
    hide ProcMove, StepsLeft;
  }

  /** The statements that p executes in these events. */
  function OwnActs(es: seq<Event>, p: nat): nat
  {
    if es == [] then 0 else OwnActs(es[..|es| - 1], p) + if es[|es| - 1].Act? && es[|es| - 1].pid == p then 1 else 0
  }

  lemma OthersActs(s: State, e: Event, p: nat)
    requires p in s.procs && e != Crash(p) && !(e.Act? && e.pid == p)
    ensures p in Step(s, e).procs && Step(s, e).procs[p] == s.procs[p]
  {
    hide ProcMove;
  }

  lemma {:induction false} RunConcat(s: State, a: seq<Event>, b: seq<Event>)
    ensures Run(s, a + b) == Run(Run(s, a), b)
    decreases |a|
  {
    hide Step;
    if a == [] {
      assert a + b == b;
    } else {
      assert (a + b)[1..] == a[1..] + b;
      RunConcat(Step(s, a[0]), a[1..], b);
    }
  }

  lemma {:induction false} ActsUseUp(s: State, es: seq<Event>, p: nat)
    requires p in s.procs && forall k :: 0 <= k < |es| ==> es[k] != Crash(p)
    ensures var t := Run(s, es);
            && p in t.procs
            && (StepsLeft(t.procs[p].pc) == 0 || StepsLeft(t.procs[p].pc) + OwnActs(es, p) <= StepsLeft(s.procs[p].pc))
    decreases |es|
  {
    if es != [] {
      var front, e := es[..|es| - 1], es[|es| - 1];
      assert es == front + [e];
      hide StepsLeft;
      RunSnoc(s, front, e);
      ActsUseUp(s, front, p);
      var u := Run(s, front);
      hide Run;
      if e.Act? && e.pid == p {
        ActProgresses(u, p, e.outcome);
        hide Step;
      } else {
        assert e != Crash(p);
        OthersActs(u, e, p);
      }
    }
  }

  lemma AtMostEighteen(pc: Pc)
    ensures StepsLeft(pc) <= 18
  {}

  lemma EndedIsFree(s: State, p: nat)
    requires Inv(s) && p in s.procs && StepsLeft(s.procs[p].pc) == 0
    ensures s.procs[p].pc == Stuck || s.procs[p].pc == Done
    ensures s.procs[p].pc == Done ==>
              p !in s.lifecycle && p !in s.database && (s.procs[p].handle <==> s.procs[p].closeFailed)
  {
    assert Local(s, p);
  }

  /** Whatever the outcomes of its steps and whatever others do, a process that has taken
      18 steps and not crashed is over: it is stuck on a handle it could not close, or done,
      with no lease and no handle but one whose close error it ignored. */
  lemma EveryProcessEnds(es: seq<Event>, later: seq<Event>, p: nat)
    requires p in Run(INITIAL, es).procs && OwnActs(later, p) >= 18
    requires forall k :: 0 <= k < |later| ==> later[k] != Crash(p)
    ensures var t := Run(INITIAL, es + later);
            && p in t.procs
            && (t.procs[p].pc == Stuck || t.procs[p].pc == Done)
            && (t.procs[p].pc == Done ==>
                  p !in t.lifecycle && p !in t.database && (t.procs[p].handle <==> t.procs[p].closeFailed))
  {
    RunConcat(INITIAL, es, later);
    Always(es + later);
    ActsUseUp(Run(INITIAL, es), later, p);
    hide Run;
    AtMostEighteen(Run(INITIAL, es).procs[p].pc);
    EndedIsFree(Run(INITIAL, es + later), p);
  }

  lemma StopsServing(s: State, p: nat)
    requires p in s.procs && Serves(s.procs[p])
    ensures var t := Succeed(s, p, 3);
            p in t.procs && t.procs[p].pc == InFinalize(VerifyMetadata) && t.metadata == Owner(p)
  {
    hide Compatible;
    assert Succeed(s, p, 0) == s;
    assert Succeed(s, p, 1).procs[p].pc == InFinalize(CloseDatabase) && Succeed(s, p, 1).metadata == Owner(p);
    assert Succeed(s, p, 2).procs[p].pc == InFinalize(StopListener) && Succeed(s, p, 2).metadata == Owner(p);
  }

  /** The pc and the metadata a finalizing step that succeeds leaves. */
  lemma FinalizeSucceeds(s: State, p: nat)
    requires p in s.procs && s.procs[p].pc.InFinalize?
    ensures var t := Step(s, Act(p, Succeeds));
            p in t.procs && match s.procs[p].pc.finalize
              case VerifyMetadata =>
                s.metadata == Owner(p) ==> t.procs[p].pc == InFinalize(RemoveMetadata) && t.metadata == Owner(p)
              case RemoveMetadata => s.metadata == Owner(p) ==> t.procs[p].pc == InFinalize(RemoveOwnEndpoint)
              case RemoveOwnEndpoint => t.procs[p].pc == InFinalize(ReleaseDatabase)
              case ReleaseDatabase => t.procs[p].pc == InFinalize(ReleaseLifecycle)
              case _ => true
  {
    hide Compatible;
  }

  lemma RemovesOwnFiles(s: State, p: nat)
    requires p in s.procs && s.procs[p].pc == InFinalize(VerifyMetadata) && s.metadata == Owner(p)
    ensures var t := Succeed(s, p, 4); p in t.procs && FreesLifecycle(t.procs[p])
  {
    hide Step;
    assert Succeed(s, p, 0) == s;
    FinalizeSucceeds(s, p);
    FinalizeSucceeds(Succeed(s, p, 1), p);
    FinalizeSucceeds(Succeed(s, p, 2), p);
    FinalizeSucceeds(Succeed(s, p, 3), p);
  }

  lemma HandleStaysClosed(s: State, p: nat)
    requires p in s.procs && FreesLifecycle(s.procs[p])
    ensures p in Step(s, Act(p, Succeeds)).procs && Step(s, Act(p, Succeeds)).procs[p].handle == s.procs[p].handle
  {
    hide Compatible;
  }

  /** A serving daemon whose closing steps succeed is done after them: its database closed,
      both leases free, and its metadata and socket gone. */
  lemma CloseCompletes(es: seq<Event>, p: nat)
    requires p in Run(INITIAL, es).procs && Serves(Run(INITIAL, es).procs[p])
    ensures var t := Run(INITIAL, es + Successes(p, 7) + [Act(p, Succeeds)]);
            && p in t.procs && t.procs[p].pc == Done && !t.procs[p].handle
            && t.lifecycle == map[] && p !in t.database && t.metadata == Nobody && t.endpoint == Nobody
  {
    var s := Run(INITIAL, es);
    StopsServing(s, p);
    RemovesOwnFiles(Succeed(s, p, 3), p);
    SucceedMore(s, p, 3, 4);
    RunSuccesses(INITIAL, es, p, 7);
    var all := es + Successes(p, 7);
    RunSnoc(INITIAL, all, Act(p, Succeeds));
    hide Succeed;
    CloseLeavesNothing(all, p, Succeeds);
    hide Run;
    Always(all + [Act(p, Succeeds)]);
    EndedIsFree(Run(INITIAL, all + [Act(p, Succeeds)]), p);
    HandleStaysClosed(Run(INITIAL, all), p);
  }

  // ---- What failing steps lead to -------------------------------------------------------------------------

  predicate Failing(o: Outcome)
  {
    o.Fails? || o.FailsLate?
  }

  /** A start whose next statement fails, or meets a conflict, goes to its catch block with
      what it had; a late failure leaves the file it was writing. */
  lemma StartupFails(s: State, p: nat, o: Outcome)
    requires p in s.procs && s.procs[p].pc.InStartup? && !Serves(s.procs[p]) && Failing(o)
    ensures var t, at := Step(s, Act(p, o)), s.procs[p].pc.startup;
            && p in t.procs && t.procs[p] == s.procs[p].(pc := InUndo(UndoListener))
            && t.metadata == (if o.FailsLate? && (at.PublishStarting? || at.PublishReady?) then Owner(p) else s.metadata)
            && t.endpoint == (if o.FailsLate? && at.Bind? then Owner(p) else s.endpoint)
  {
    hide Compatible;
  }

  /** What one guarded statement of the catch block does when it succeeds. */
  ghost predicate UndoneBy(p: nat, proc: Proc, metadata: Owner, endpoint: Owner, m: Move)
    requires proc.pc.InUndo?
  {
    var own := proc.wrote && proc.lifecycle.Held? && metadata == Owner(p);
    && m.proc.wrote == proc.wrote
    && m.proc.handle == (proc.handle && !proc.pc.undo.UndoDatabase?)
    && (!proc.pc.undo.UndoLifecycleLease? ==> m.proc.lifecycle == proc.lifecycle)
    && m.metadata == (if proc.pc.undo.UndoRemove? && metadata == Owner(p) then Nobody else metadata)
    && m.endpoint == (if proc.pc.undo.UndoEndpoint? && proc.lifecycle.Held? then Nobody else endpoint)
    && m.proc.pc == match proc.pc.undo
                    case UndoListener => InUndo(UndoDatabase)
                    case UndoDatabase => InUndo(UndoVerify)
                    case UndoVerify => InUndo(if own then UndoRemove else UndoEndpoint)
                    case UndoRemove => InUndo(UndoEndpoint)
                    case UndoEndpoint => InUndo(UndoDatabaseLease)
                    case UndoDatabaseLease => InUndo(UndoLifecycleLease)
                    case UndoLifecycleLease => Done
  }

  lemma UndoMoveSucceeds(v: Sight, p: nat, proc: Proc)
    requires proc.pc.InUndo?
    ensures UndoneBy(p, proc, v.metadata, v.endpoint, UndoMove(v, p, proc, proc.pc.undo, Succeeds))
  {}

  lemma UndoSucceeds(s: State, p: nat)
    requires p in s.procs && s.procs[p].pc.InUndo?
    ensures var t := Step(s, Act(p, Succeeds));
            p in t.procs && UndoneBy(p, s.procs[p], s.metadata, s.endpoint, Move(t.procs[p], t.metadata, t.endpoint))
  {
    UndoMoveSucceeds(Look(s), p, s.procs[p]);
    hide UndoMove, Compatible, UndoneBy;
  }

  predicate SameFiles(s: State, t: State)
  {
    t.metadata == s.metadata && t.endpoint == s.endpoint
  }

  predicate OwnsMetadata(s: State, p: nat)
    requires p in s.procs
  {
    s.procs[p].wrote && s.procs[p].lifecycle.Held? && s.metadata == Owner(p)
  }

  /** A catch block whose statements succeed closes the handle, removes the metadata it
      knows to have written and, with the lifecycle lease, the socket, and is done. */
  lemma UndoCompletes(s: State, p: nat)
    requires p in s.procs && s.procs[p].pc == InUndo(UndoListener)
    ensures var proc, t := s.procs[p], Succeed(s, p, if OwnsMetadata(s, p) then 7 else 6);
            && p in t.procs && t.procs[p].pc == Done && !t.procs[p].handle
            && t.metadata == (if OwnsMetadata(s, p) then Nobody else s.metadata)
            && t.endpoint == (if proc.lifecycle.Held? then Nobody else s.endpoint)
  {
    hide Step;
    assert Succeed(s, p, 0) == s;
    UndoSucceeds(s, p);
    UndoSucceeds(Succeed(s, p, 1), p);
    UndoSucceeds(Succeed(s, p, 2), p);
    UndoSucceeds(Succeed(s, p, 3), p);
    UndoSucceeds(Succeed(s, p, 4), p);
    UndoSucceeds(Succeed(s, p, 5), p);
    if OwnsMetadata(s, p) {
      UndoSucceeds(Succeed(s, p, 6), p);
    }
  }

  /** In every run, a start that fails at any statement and whose catch block succeeds ends
      with no handle and no lease; it removes its metadata if it knew it written, and the
      socket if it had the lifecycle lease. */
  lemma FailedStartRollsBack(es: seq<Event>, p: nat, o: Outcome)
    requires p in Run(INITIAL, es).procs
    requires var proc := Run(INITIAL, es).procs[p]; proc.pc.InStartup? && !Serves(proc) && Failing(o)
    ensures var s := Run(INITIAL, es);
            var u := Step(s, Act(p, o));
            && p in u.procs
            && var t := Succeed(u, p, if OwnsMetadata(u, p) then 7 else 6);
               && p in t.procs && t.procs[p].pc == Done && !t.procs[p].handle
               && p !in t.lifecycle && p !in t.database
               && (Published(s, p) ==> t.metadata == Nobody)
               && (s.procs[p].lifecycle.Held? ==> t.endpoint == Nobody)
  {
    var s := Run(INITIAL, es);
    var u := Step(s, Act(p, o));
    StartupFails(s, p, o);
    UndoCompletes(u, p);
    PublishedIsOnDisk(es, p);
    Always(es);
    assert Local(s, p);
    var n := if OwnsMetadata(u, p) then 7 else 6;
    RunSnoc(INITIAL, es, Act(p, o));
    var all := es + [Act(p, o)];
    RunSuccesses(INITIAL, all, p, n);
    Always(all + Successes(p, n));
    hide Run, Succeed, Step;
    EndedIsFree(Run(INITIAL, all + Successes(p, n)), p);
  }

  /** A close that fails before the leases are freed keeps both, and all it has not removed. */
  lemma FinalizeFails(s: State, p: nat, o: Outcome)
    requires p in s.procs && s.procs[p].pc.InFinalize? && Failing(o)
    requires !s.procs[p].pc.finalize.ReleaseDatabase? && !FreesLifecycle(s.procs[p])
    ensures var t := Step(s, Act(p, o));
            p in t.procs && t.procs[p] == s.procs[p].(pc := Stuck) && SameFiles(s, t)
  {
    hide Compatible;
  }

  /** The listener may unlink the socket it stops listening on, and only that. */
  lemma StopsListening(s: State, p: nat, o: Outcome)
    requires p in s.procs && s.procs[p].pc == InFinalize(StopListener) && Went(o)
    ensures var t := Step(s, Act(p, o));
            && p in t.procs && t.procs[p].pc == InFinalize(VerifyMetadata) && t.metadata == s.metadata
            && t.endpoint == (if o.TakesOtherBranch? then Nobody else s.endpoint)
  {
    hide Compatible;
  }

  /** An opener that fails to open or to migrate gives its lease back without a handle,
      unless closing it fails too; one that fails to close keeps both. */
  lemma OpenerFails(s: State, p: nat, o: Outcome)
    requires p in s.procs && s.procs[p].pc.InOpener? && Failing(o)
    ensures var proc, t := s.procs[p], Step(s, Act(p, o));
            && p in t.procs && SameFiles(s, t)
            && match proc.pc.opener
               case OpenerOpen => t.procs[p] == proc.(pc := InOpener(OpenerRelease))
               case OpenerMigrate => t.procs[p] == proc.(pc := InOpener(OpenerAbandon))
               case OpenerAbandon => t.procs[p] == proc.(pc := InOpener(OpenerRelease), closeFailed := true)
               case OpenerClose => proc.handle ==> t.procs[p] == proc.(pc := Stuck)
               case _ => true
  {
    hide Compatible;
  }

  /** A mutation stops the daemon only when one runs, and operates only after that worked. */
  lemma MutationBranches(s: State, p: nat, o: Outcome)
    requires p in s.procs && s.procs[p].pc.InMutation?
    ensures var proc, t := s.procs[p], Step(s, Act(p, o));
            && p in t.procs
            && (proc.pc.mutation.MutationStatus? ==>
                  t.procs[p].pc == if o.Succeeds? then InMutation(MutationAcquire)
                                   else if o.TakesOtherBranch? then InMutation(MutationStop) else Done)
            && (proc.pc.mutation.MutationStop? ==>
                  t.procs[p].pc == InMutation(if Failing(o) then MutationRestore else MutationAcquire))
            && (proc.pc.mutation.MutationAcquire? ==>
                  (t.procs[p].pc == InMutation(MutationOperate) <==> o.Succeeds? && Compatible(s.database, Shared)))
  {}

  /** A cleaner whose check or removal fails leaves the files alone and gives its lease back. */
  lemma CleanerFails(s: State, p: nat, o: Outcome)
    requires p in s.procs && s.procs[p].pc.InCleaner? && Failing(o)
    ensures var proc, t := s.procs[p], Step(s, Act(p, o));
            && p in t.procs && SameFiles(s, t)
            && (proc.pc.cleaner.CleanerVerify? || proc.pc.cleaner.CleanerRemove? || proc.pc.cleaner.CleanerEndpoint? ==>
                  t.procs[p] == proc.(pc := InCleaner(CleanerRelease)))
            && (proc.pc.cleaner.CleanerRelease? ==> t.procs[p].pc == Done && p !in t.lifecycle)
  {
    hide Compatible;
  }

  // ---- The ignored close error ------------------------------------------------------------------------

  lemma {:induction false} OthersKeepHandle(s: State, p: nat, q: nat, n: nat)
    requires p != q && q in s.procs
    ensures q in Succeed(s, p, n).procs && Succeed(s, p, n).procs[q] == s.procs[q]
    decreases n
  {
    if n > 0 {
      OthersKeepHandle(s, p, q, n - 1);
    }
  }

  /** A handle left open without a lease is dangerous in every such state: once no
      lease is held, a fresh daemon opens the same database beside it. */
  lemma LeftOpenHandleIsJoined(s: State, q: nat, p: nat)
    requires s.lifecycle == map[] && s.database == map[] && p !in s.procs && HasOpen(s, q)
    ensures var t := Succeed(Step(s, Spawn(p, Daemon)), p, 10);
            p != q && IsDaemon(t, p) && HasOpen(t, p) && HasOpen(t, q)
  {
    var s0 := Step(s, Spawn(p, Daemon));
    assert q in s0.procs && s0.procs[q] == s.procs[q];
    FreshDaemonRecovers(s, p);
    OthersKeepHandle(s0, p, q, 10);
    hide Succeed, Step;
  }

  function ZeroPrepared(): seq<Event>
  {
    [Spawn(0, Daemon)] + Successes(0, 6)
  }

  function DaemonZeroLeaks(): seq<Event>
  {
    ZeroPrepared() + [Act(0, Fails)] + [Act(0, Succeeds)] + [Act(0, Fails)] + Successes(0, 5)
  }

  /** Daemon 0 fails in preparation and its close error is ignored; daemon 1 then
      opens the database while 0 still has it open. */
  function TwoOpenDaemons(): seq<Event>
  {
    DaemonZeroLeaks() + [Spawn(1, Daemon)] + Successes(1, 10)
  }

  lemma ZeroPrepares()
    ensures Run(INITIAL, ZeroPrepared()) == Starting(INITIAL, 0, Prepare, true, true, true, true, false, Nobody)
  {
    var spawned := [Spawn(0, Daemon)];
    RunSnoc(INITIAL, [], Spawn(0, Daemon));
    assert [] + spawned == spawned;
    RunSuccesses(INITIAL, spawned, 0, 6);
    RecoversLeases(INITIAL, 0);
    OpensDatabase(INITIAL, 0);
    assert Run(INITIAL, []) == INITIAL;
    hide Step, Starting, Run;
  }

  function Undoing(at: UndoPc, handle: bool, closeFailed: bool, wrote: bool, published: bool, leases: bool): Proc
  {
    var lease := if leases then Held(Exclusive) else NoLease;
    Proc(Daemon, InUndo(at), lease, lease, handle, wrote, published, false, closeFailed, Nobody)
  }

  lemma ZeroIgnoresError(s: State)
    requires s == Starting(INITIAL, 0, Prepare, true, true, true, true, false, Nobody)
    ensures var t := Step(Step(Step(s, Act(0, Fails)), Act(0, Succeeds)), Act(0, Fails));
            && t.procs.Keys == {0} && t.procs[0] == Undoing(UndoVerify, true, true, true, true, true)
            && t.metadata == Owner(0) && t.lifecycle == map[0 := Exclusive] && t.database == map[0 := Exclusive]
  {
    hide Compatible;
  }

  lemma ZeroReleases(s: State)
    requires s.procs.Keys == {0} && s.procs[0] == Undoing(UndoDatabaseLease, true, true, true, false, true)
    requires s.lifecycle == map[0 := Exclusive] && s.database == map[0 := Exclusive]
    ensures var t := Step(Step(s, Act(0, Succeeds)), Act(0, Succeeds));
            && t.procs.Keys == {0} && IsDaemon(t, 0) && HasOpen(t, 0) && CloseFailed(t, 0)
            && t.lifecycle == map[] && t.database == map[]
  {
    hide Compatible;
    assert map[0 := Exclusive] - {0} == map[];
  }

  lemma ZeroGivesUpFiles(s: State)
    requires s.procs.Keys == {0} && s.procs[0] == Undoing(UndoVerify, true, true, true, true, true)
    requires s.metadata == Owner(0) && s.lifecycle == map[0 := Exclusive] && s.database == map[0 := Exclusive]
    ensures var t := Succeed(s, 0, 3);
            && t.procs.Keys == {0} && t.procs[0] == Undoing(UndoDatabaseLease, true, true, true, false, true)
            && t.lifecycle == map[0 := Exclusive] && t.database == map[0 := Exclusive]
  {
    hide Compatible;
    assert Succeed(s, 0, 0) == s;
    assert Succeed(s, 0, 1).procs[0] == Undoing(UndoRemove, true, true, true, true, true);
    assert Succeed(s, 0, 2).procs[0] == Undoing(UndoEndpoint, true, true, true, false, true);
  }

  lemma ZeroFinishesUndo(s: State)
    requires s.procs.Keys == {0} && s.procs[0] == Undoing(UndoVerify, true, true, true, true, true)
    requires s.metadata == Owner(0) && s.lifecycle == map[0 := Exclusive] && s.database == map[0 := Exclusive]
    ensures var t := Succeed(s, 0, 5);
            && t.procs.Keys == {0} && IsDaemon(t, 0) && HasOpen(t, 0) && CloseFailed(t, 0)
            && t.lifecycle == map[] && t.database == map[]
  {
    hide Compatible, Step;
    ZeroGivesUpFiles(s);
    ZeroReleases(Succeed(s, 0, 3));
    assert Succeed(s, 0, 4) == Step(Succeed(s, 0, 3), Act(0, Succeeds));
  }

  lemma ZeroIsLeftOpen()
    ensures var s := Run(INITIAL, DaemonZeroLeaks());
            && s.procs.Keys == {0} && IsDaemon(s, 0) && HasOpen(s, 0) && CloseFailed(s, 0)
            && s.lifecycle == map[] && s.database == map[]
  {
    ZeroPrepares();
    var e0 := ZeroPrepared();
    var e1 := e0 + [Act(0, Fails)];
    var e2 := e1 + [Act(0, Succeeds)];
    var e3 := e2 + [Act(0, Fails)];
    RunSnoc(INITIAL, e0, Act(0, Fails));
    RunSnoc(INITIAL, e1, Act(0, Succeeds));
    RunSnoc(INITIAL, e2, Act(0, Fails));
    var s0 := Run(INITIAL, e0);
    ZeroIgnoresError(s0);
    RunSuccesses(INITIAL, e3, 0, 5);
    ZeroFinishesUndo(Run(INITIAL, e3));
  }

  lemma CloseErrorIgnoredBreaksExclusion()
    ensures var s := Run(INITIAL, TwoOpenDaemons());
            IsDaemon(s, 0) && HasOpen(s, 0) && IsDaemon(s, 1) && HasOpen(s, 1)
  {
    ZeroIsLeftOpen();
    var s := Run(INITIAL, DaemonZeroLeaks());
    LeftOpenHandleIsJoined(s, 0, 1);
    RunSnoc(INITIAL, DaemonZeroLeaks(), Spawn(1, Daemon));
    RunSuccesses(INITIAL, DaemonZeroLeaks() + [Spawn(1, Daemon)], 1, 10);
    OthersKeepHandle(Step(s, Spawn(1, Daemon)), 1, 0, 10);
  }
}
