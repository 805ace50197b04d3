/**
 * The raft health reconcilers of the OVN database manager, each a pure
 * function from the admin channel's replies and the configuration to the
 * admin commands issued and the error reported:
 *   - EnsureLocalServerId evicts stale entries left at the local address
 *     under an old server ID;
 *   - EnsureClusterMembership evicts entries whose address is not a known
 *     cluster member;
 *   - EnsureElectionTimeout moves the leader's election timer toward its
 *     target, at most doubling it per cycle;
 *   - ResetRaftDb moves the database file to a backup, then asks the
 *     server to exit.
 */
module OvnDbManager {
  import opened Wrappers
  import opened Text
  import opened RaftStatus

  const Northbound: string := "OVN_Northbound"
  const Southbound: string := "OVN_Southbound"

  /** The admin commands the reconcilers send to a database server. */
  datatype Command =
    | ClusterSid(db: string)
    | ClusterStatusQuery(db: string)
    | ClusterKick(db: string, sid: string)
    | ChangeElectionTimer(db: string, value: nat)
    | Exit

  /** The argument list the admin channel receives for each command. */
  function Args(c: Command): seq<string> {
    match c
    case ClusterSid(db) => ["cluster/sid", db]
    case ClusterStatusQuery(db) => ["cluster/status", db]
    case ClusterKick(db, sid) => ["cluster/kick", db, sid]
    case ChangeElectionTimer(db, v) => ["cluster/change-election-timer", db, ShowNat(v)]
    case Exit => ["exit"]
  }

  /** What the admin channel answers: standard output, or a failure with its standard error. */
  datatype Reply = Ok(out: string) | Failed(stderr: string)

  /** The admin channel, as the answer it gives to each command. */
  type Admin = Command -> Reply

  /** The error kinds the reconcilers report. */
  datatype DbError =
    | ServerIdUnavailable
    | InvalidServerId(sid: string)
    | StatusUnavailable
    | AddressUnparsable
    | StaleKickFailed(sid: string)
    | InvalidDatabaseName(name: string)
    | UnknownKickFailed(sids: seq<string>)
    | TimerUnparsable
    | TimerChangeFailed(value: nat)
    | BackupFailed
    | RestartFailed

  /** The admin commands one reconciler call issued, in order, and the error it reported. */
  datatype Run = Run(calls: seq<Command>, err: Option<DbError>)

  /** One managed database: its name in admin commands, its file alias, its target election timer. */
  datatype Db = Db(name: string, alias: string, electionTimer: nat)

  /** The length of a raft short server ID. */
  const ShortIdLength: nat := 4

  // ---------------------------------------------------------------------
  // Stale local entries

  /** An entry left at the local address under a server ID other than the local one. */
  predicate IsStale(e: ServerEntry, local: Address, shortId: string) {
    !e.liveness.Self? && e.address == local && e.sid != shortId
  }

  /** The IDs of the stale entries, in table order. */
  function StaleIds(servers: seq<ServerEntry>, local: Address, shortId: string): seq<string>
  {
    if |servers| == 0 then []
    else if IsStale(servers[0], local, shortId) then [servers[0].sid] + StaleIds(servers[1..], local, shortId)
    else StaleIds(servers[1..], local, shortId)
  }

  /** Exactly the stale entries' IDs are selected. */
  lemma {:induction false} StaleIdsExact(servers: seq<ServerEntry>, local: Address, shortId: string)
    ensures forall e :: e in servers && IsStale(e, local, shortId) ==> e.sid in StaleIds(servers, local, shortId)
    ensures forall id :: id in StaleIds(servers, local, shortId) ==>
              exists e :: e in servers && IsStale(e, local, shortId) && e.sid == id
    decreases |servers|
  {
    if |servers| > 0 {
      StaleIdsExact(servers[1..], local, shortId);
      assert forall e :: e in servers <==> e == servers[0] || e in servers[1..];
    }
  }

  /** A table without stale entries selects no ID. */
  lemma {:induction false} StaleIdsNone(servers: seq<ServerEntry>, local: Address, shortId: string)
    requires forall e :: e in servers ==> !IsStale(e, local, shortId)
    ensures StaleIds(servers, local, shortId) == []
    decreases |servers|
  {
    if |servers| > 0 {
      assert servers[0] in servers;
      assert forall e :: e in servers[1..] ==> e in servers;
      StaleIdsNone(servers[1..], local, shortId);
    }
  }

  /**
   * Kicks each ID in turn and stops at the first kick the server refuses,
   * reporting that ID.
   */
  function KickStale(db: string, sids: seq<string>, admin: Admin): (r: Run)
    ensures 0 < |r.calls| <= |sids| || (r.calls == [] && sids == [])
    ensures forall i :: 0 <= i < |r.calls| ==> r.calls[i] == ClusterKick(db, sids[i])
    ensures forall i :: 0 <= i < |r.calls| - 1 ==> admin(ClusterKick(db, sids[i])).Ok?
    ensures r.err.None? <==> |r.calls| == |sids| && forall i :: 0 <= i < |sids| ==> admin(ClusterKick(db, sids[i])).Ok?
    ensures r.err.Some? ==> 0 < |r.calls| && r.err == Some(StaleKickFailed(sids[|r.calls| - 1]))
                             && admin(ClusterKick(db, sids[|r.calls| - 1])).Failed?
  {
    if |sids| == 0 then Run([], None)
    else if admin(ClusterKick(db, sids[0])).Failed? then Run([ClusterKick(db, sids[0])], Some(StaleKickFailed(sids[0])))
    else
      var rest := KickStale(db, sids[1..], admin);
      Run([ClusterKick(db, sids[0])] + rest.calls, rest.err)
  }

  /**
   * Reads the local server ID, rejects one too short to carry a short ID,
   * reads the cluster status and its local `Address`, then kicks every
   * entry left at that address under another short ID.
   */
  function EnsureLocalServerId(db: Db, admin: Admin): (r: Run)
    ensures |r.calls| > 0 && r.calls[0] == ClusterSid(db.name)
    ensures admin(ClusterSid(db.name)).Failed? <==> r.err == Some(ServerIdUnavailable)
    ensures admin(ClusterSid(db.name)).Failed? ==> r == Run([ClusterSid(db.name)], Some(ServerIdUnavailable))
    ensures (r.err.Some? && r.err.value.InvalidServerId?) <==>
              admin(ClusterSid(db.name)).Ok? && |admin(ClusterSid(db.name)).out| < ShortIdLength
    ensures (r.err.Some? && r.err.value.InvalidServerId?) ==>
              admin(ClusterSid(db.name)).Ok? && r.err.value.sid == admin(ClusterSid(db.name)).out
    ensures (r.err == Some(ServerIdUnavailable) || (r.err.Some? && r.err.value.InvalidServerId?)) ==> |r.calls| == 1
    ensures |r.calls| > 1 ==> r.calls[1] == ClusterStatusQuery(db.name)
    ensures r.err == Some(StatusUnavailable) <==>
              |r.calls| > 1 && admin(ClusterStatusQuery(db.name)).Failed?
    ensures r.err == Some(AddressUnparsable) <==>
              |r.calls| > 1 && admin(ClusterStatusQuery(db.name)).Ok?
              && ReportAddress(Split(admin(ClusterStatusQuery(db.name)).out, '\n')).None?
    ensures |r.calls| > 2 ==>
              && admin(ClusterSid(db.name)).Ok? && |admin(ClusterSid(db.name)).out| >= ShortIdLength
              && admin(ClusterStatusQuery(db.name)).Ok?
              && var lines := Split(admin(ClusterStatusQuery(db.name)).out, '\n');
                 && ReportAddress(lines).Some?
                 && r.calls[2..] == KickStale(db.name, StaleIds(ReportServers(lines), ReportAddress(lines).value,
                                                                admin(ClusterSid(db.name)).out[..ShortIdLength]), admin).calls
    ensures admin(ClusterSid(db.name)).Ok? && |admin(ClusterSid(db.name)).out| >= ShortIdLength
            && admin(ClusterStatusQuery(db.name)).Ok?
            && ReportAddress(Split(admin(ClusterStatusQuery(db.name)).out, '\n')).Some? ==>
              var lines := Split(admin(ClusterStatusQuery(db.name)).out, '\n');
              var kicks := KickStale(db.name, StaleIds(ReportServers(lines), ReportAddress(lines).value,
                                                       admin(ClusterSid(db.name)).out[..ShortIdLength]), admin);
              && r.calls == [ClusterSid(db.name), ClusterStatusQuery(db.name)] + kicks.calls
              && r.err == kicks.err
    ensures admin(ClusterSid(db.name)).Ok? && |admin(ClusterSid(db.name)).out| >= ShortIdLength
            && admin(ClusterStatusQuery(db.name)).Failed? ==>
              r == Run([ClusterSid(db.name), ClusterStatusQuery(db.name)], Some(StatusUnavailable))
    ensures admin(ClusterSid(db.name)).Ok? && |admin(ClusterSid(db.name)).out| >= ShortIdLength
            && admin(ClusterStatusQuery(db.name)).Ok?
            && ReportAddress(Split(admin(ClusterStatusQuery(db.name)).out, '\n')).None? ==>
              r == Run([ClusterSid(db.name), ClusterStatusQuery(db.name)], Some(AddressUnparsable))
  {
    var sidQuery := ClusterSid(db.name);
    var statusQuery := ClusterStatusQuery(db.name);
    match admin(sidQuery)
    case Failed(_) => Run([sidQuery], Some(ServerIdUnavailable))
    case Ok(sid) =>
      if |sid| < ShortIdLength then Run([sidQuery], Some(InvalidServerId(sid)))
      else
        match admin(statusQuery)
        case Failed(_) => Run([sidQuery, statusQuery], Some(StatusUnavailable))
        case Ok(out) =>
          var lines := Split(out, '\n');
          match ReportAddress(lines)
          case None => Run([sidQuery, statusQuery], Some(AddressUnparsable))
          case Some(local) =>
            var stale := StaleIds(ReportServers(lines), local, sid[..ShortIdLength]);
            var kicks := KickStale(db.name, stale, admin);
            Run([sidQuery, statusQuery] + kicks.calls, kicks.err)
  }

  // ---------------------------------------------------------------------
  // Unknown members

  /** The cluster-member addresses configured for each database, comma separated. */
  datatype Config = Config(northAddress: string, southAddress: string)

  /** The known member addresses of a database; None for a name that is neither database. */
  function KnownMembers(name: string, cfg: Config): (r: Option<seq<string>>)
    ensures r.Some? <==> name == Northbound || name == Southbound
  {
    if name == Northbound then Some(Split(cfg.northAddress, ','))
    else if name == Southbound then Some(Split(cfg.southAddress, ','))
    else None
  }

  /** A peer whose address is not among the known members. The local server is never one. */
  predicate IsUnknown(e: ServerEntry, known: seq<string>) {
    !e.liveness.Self? && RenderAddress(e.address) !in known
  }

  /** The IDs of the unknown entries, in table order. */
  function UnknownIds(servers: seq<ServerEntry>, known: seq<string>): seq<string>
  {
    if |servers| == 0 then []
    else if IsUnknown(servers[0], known) then [servers[0].sid] + UnknownIds(servers[1..], known)
    else UnknownIds(servers[1..], known)
  }

  /** Exactly the unknown entries' IDs are selected: every peer outside the known members, and no other. */
  lemma {:induction false} UnknownIdsExact(servers: seq<ServerEntry>, known: seq<string>)
    ensures forall e :: e in servers && IsUnknown(e, known) ==> e.sid in UnknownIds(servers, known)
    ensures forall id :: id in UnknownIds(servers, known) ==>
              exists e :: e in servers && IsUnknown(e, known) && e.sid == id
    decreases |servers|
  {
    if |servers| > 0 {
      UnknownIdsExact(servers[1..], known);
      assert forall e :: e in servers <==> e == servers[0] || e in servers[1..];
    }
  }

  /** The outcome of kicking a list of IDs independently of each other. */
  datatype Kicks = Kicks(calls: seq<Command>, failed: seq<string>)

  /** Kicks every ID, whatever happened to the previous ones, collecting the refused IDs. */
  function KickAll(db: string, sids: seq<string>, admin: Admin): (r: Kicks)
    ensures |r.calls| == |sids|
    ensures forall i :: 0 <= i < |sids| ==> r.calls[i] == ClusterKick(db, sids[i])
    ensures forall s :: s in r.failed <==> s in sids && admin(ClusterKick(db, s)).Failed?
  {
    if |sids| == 0 then Kicks([], [])
    else
      var rest := KickAll(db, sids[1..], admin);
      assert forall s :: s in sids <==> s == sids[0] || s in sids[1..];
      var calls := [ClusterKick(db, sids[0])] + rest.calls;
      if admin(ClusterKick(db, sids[0])).Failed? then Kicks(calls, [sids[0]] + rest.failed)
      else Kicks(calls, rest.failed)
  }

  /**
   * Rejects a database name that is neither database before any query,
   * reads the cluster status, then kicks every peer whose address is not
   * a known member; a refused kick does not stop the others.
   */
  function EnsureClusterMembership(db: Db, cfg: Config, admin: Admin): (r: Run)
    ensures KnownMembers(db.name, cfg).None? <==> r == Run([], Some(InvalidDatabaseName(db.name)))
    ensures KnownMembers(db.name, cfg).Some? ==>
              |r.calls| > 0 && r.calls[0] == ClusterStatusQuery(db.name)
              && (admin(ClusterStatusQuery(db.name)).Failed? <==> r.err == Some(StatusUnavailable))
    ensures KnownMembers(db.name, cfg).Some? && admin(ClusterStatusQuery(db.name)).Ok? ==>
              var known := KnownMembers(db.name, cfg).value;
              var servers := ReportServers(Split(admin(ClusterStatusQuery(db.name)).out, '\n'));
              && r.calls[1..] == KickAll(db.name, UnknownIds(servers, known), admin).calls
              && (r.err.None? <==> forall s :: s in UnknownIds(servers, known) ==> admin(ClusterKick(db.name, s)).Ok?)
    ensures KnownMembers(db.name, cfg).Some? && admin(ClusterStatusQuery(db.name)).Failed? ==>
              r == Run([ClusterStatusQuery(db.name)], Some(StatusUnavailable))
    ensures KnownMembers(db.name, cfg).Some? && admin(ClusterStatusQuery(db.name)).Ok? ==>
              var known := KnownMembers(db.name, cfg).value;
              var servers := ReportServers(Split(admin(ClusterStatusQuery(db.name)).out, '\n'));
              var failed := KickAll(db.name, UnknownIds(servers, known), admin).failed;
              r.err == if failed == [] then None else Some(UnknownKickFailed(failed))
  {
    match KnownMembers(db.name, cfg)
    case None => Run([], Some(InvalidDatabaseName(db.name)))
    case Some(known) =>
      var statusQuery := ClusterStatusQuery(db.name);
      match admin(statusQuery)
      case Failed(_) => Run([statusQuery], Some(StatusUnavailable))
      case Ok(out) =>
        var unknown := UnknownIds(ReportServers(Split(out, '\n')), known);
        var kicks := KickAll(db.name, unknown, admin);
        assert ([statusQuery] + kicks.calls)[1..] == kicks.calls;
        if |kicks.failed| == 0 then Run([statusQuery] + kicks.calls, None)
        else
          assert kicks.failed[0] in kicks.failed;
          Run([statusQuery] + kicks.calls, Some(UnknownKickFailed(kicks.failed)))
  }

  // ---------------------------------------------------------------------
  // Election timer

  /** What the leader does with its election timer in one cycle. */
  datatype TimerStep =
    | Hold          // already at the target
    | Raise(next: nat)
    | Lower         // the target is below the current value

  /**
   * The next election timer on the way up to the target: the target itself
   * when it is at most twice the current value, otherwise twice the
   * current value, the most one change may grow it.
   */
  function ElectionTimerStep(current: nat, target: nat): (s: TimerStep)
    ensures s.Hold? <==> current == target
    ensures s.Lower? <==> target < current
    ensures s.Raise? ==> s.next <= target && s.next <= 2 * current
    ensures s.Raise? ==> s.next == target || s.next == 2 * current
  {
    if target == current then Hold
    else if target < current then Lower
    else if target <= 2 * current then Raise(target)
    else Raise(2 * current)
  }

  /**
   * The timer values a leader sets in successive cycles, each a single
   * step from the previous one, until the target is reached.
   */
  function RaiseSchedule(current: nat, target: nat): (trace: seq<nat>)
    requires 0 < current <= target
    ensures current == target <==> trace == []
    ensures trace != [] ==> trace[|trace| - 1] == target
    ensures trace != [] ==> ElectionTimerStep(current, target) == Raise(trace[0])
    ensures forall i :: 0 < i < |trace| ==> ElectionTimerStep(trace[i - 1], target) == Raise(trace[i])
    ensures forall i :: 0 <= i < |trace| ==> current < trace[i] <= target
    decreases target - current
  {
    if current == target then []
    else
      var next := ElectionTimerStep(current, target).next;
      var rest := RaiseSchedule(next, target);
      [next] + rest
  }

  /**
   * Reads the cluster status; a server that is not the leader does
   * nothing. A leader reads its election timer and, when it is below the
   * target, issues one bounded raise.
   */
  function EnsureElectionTimeout(db: Db, admin: Admin): (r: Run)
    ensures |r.calls| > 0 && r.calls[0] == ClusterStatusQuery(db.name)
    ensures admin(ClusterStatusQuery(db.name)).Failed? <==> r.err == Some(StatusUnavailable)
    ensures admin(ClusterStatusQuery(db.name)).Ok? ==>
              var lines := Split(admin(ClusterStatusQuery(db.name)).out, '\n');
              && (ReportRole(lines) != Some("leader") ==> r == Run([ClusterStatusQuery(db.name)], None))
              && (ReportRole(lines) == Some("leader") ==>
                   && (ReportElectionTimer(lines).None? <==> r.err == Some(TimerUnparsable))
                   && (ReportElectionTimer(lines).Some? ==>
                        match ElectionTimerStep(ReportElectionTimer(lines).value, db.electionTimer)
                        case Raise(next) =>
                          && r.calls == [ClusterStatusQuery(db.name), ChangeElectionTimer(db.name, next)]
                          && (r.err.Some? <==> admin(ChangeElectionTimer(db.name, next)).Failed?)
                          && (r.err.Some? ==> r.err == Some(TimerChangeFailed(next)))
                        case _ => r == Run([ClusterStatusQuery(db.name)], None)))
    ensures admin(ClusterStatusQuery(db.name)).Failed? ==> r == Run([ClusterStatusQuery(db.name)], Some(StatusUnavailable))
    ensures admin(ClusterStatusQuery(db.name)).Ok?
            && ReportRole(Split(admin(ClusterStatusQuery(db.name)).out, '\n')) == Some("leader")
            && ReportElectionTimer(Split(admin(ClusterStatusQuery(db.name)).out, '\n')).None? ==>
              r == Run([ClusterStatusQuery(db.name)], Some(TimerUnparsable))
  {
    var statusQuery := ClusterStatusQuery(db.name);
    match admin(statusQuery)
    case Failed(_) => Run([statusQuery], Some(StatusUnavailable))
    case Ok(out) =>
      var lines := Split(out, '\n');
      if ReportRole(lines) != Some("leader") then Run([statusQuery], None)
      else
        match ReportElectionTimer(lines)
        case None => Run([statusQuery], Some(TimerUnparsable))
        case Some(current) =>
          match ElectionTimerStep(current, db.electionTimer)
          case Raise(next) =>
            var change := ChangeElectionTimer(db.name, next);
            if admin(change).Failed? then Run([statusQuery, change], Some(TimerChangeFailed(next)))
            else Run([statusQuery, change], None)
          case _ => Run([statusQuery], None)
  }

  // ---------------------------------------------------------------------
  // Database reset

  /** A step with a visible effect: a file move, or an admin command. */
  datatype Effect = MoveFile(from: string, to: string) | AdminCall(cmd: Command)

  /** The outcome of a reset: the backup file name ("" when none), the files afterwards, the effects, the error. */
  datatype Reset = Reset(backup: string, files: set<string>, effects: seq<Effect>, err: Option<DbError>)

  /**
   * The backup file name for a database alias, this model's own naming;
   * `stamp` stands for the time-derived part. The reset relies only on the
   * name differing from the alias.
   */
  function BackupName(alias: string, stamp: string): string {
    alias + "-backup-" + stamp
  }

  /**
   * Moves the database file, named by the alias, to a backup file and then
   * asks the server to exit so that it rejoins the cluster afresh. Without
   * a database file nothing happens beyond the error.
   */
  function ResetRaftDb(db: Db, files: set<string>, stamp: string, admin: Admin): (r: Reset)
    ensures db.alias !in files <==> r.err == Some(BackupFailed)
    ensures db.alias !in files ==> r.backup == "" && r.files == files && r.effects == []
    ensures db.alias in files ==>
              && r.backup != "" && r.backup != db.alias
              && r.backup in r.files && db.alias !in r.files
              && r.files - {r.backup} == files - {db.alias} - {r.backup}
              && r.effects == [MoveFile(db.alias, r.backup), AdminCall(Exit)]
              && r.files == files - {db.alias} + {r.backup}
              && r.err == if admin(Exit).Failed? then Some(RestartFailed) else None
  {
    if db.alias !in files then Reset("", files, [], Some(BackupFailed))
    else
      var backup := BackupName(db.alias, stamp);
      assert |backup| > |db.alias|;
      var moved := files - {db.alias} + {backup};
      var effects := [MoveFile(db.alias, backup), AdminCall(Exit)];
      if admin(Exit).Failed? then Reset(backup, moved, effects, Some(RestartFailed))
      else Reset(backup, moved, effects, None)
  }

  /**
   * A reset leaves no database file behind, so a second reset, whatever the
   * server does, finds nothing to back up, fails, and touches nothing.
   */
  lemma ResetTwiceFails(db: Db, files: set<string>, stamp: string, stamp': string, admin: Admin, admin': Admin)
    ensures var first := ResetRaftDb(db, files, stamp, admin);
            ResetRaftDb(db, first.files, stamp', admin') == Reset("", first.files, [], Some(BackupFailed))
  {
    var first := ResetRaftDb(db, files, stamp, admin);
    assert db.alias !in first.files;
  }

  /**
   * A reset only renames: every other file stays, and the file count is kept
   * whenever the backup name was not already taken.
   */
  lemma ResetRenames(db: Db, files: set<string>, stamp: string, admin: Admin)
    requires db.alias in files && BackupName(db.alias, stamp) !in files
    ensures var r := ResetRaftDb(db, files, stamp, admin);
            && |r.files| == |files|
            && forall f :: f != db.alias && f != r.backup ==> (f in r.files <==> f in files)
  {
    var r := ResetRaftDb(db, files, stamp, admin);
    assert r.backup == BackupName(db.alias, stamp);
    assert |files - {db.alias}| == |files| - 1;
  }
}
