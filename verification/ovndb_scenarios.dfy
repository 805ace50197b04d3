/**
 * Properties of the raft reconcilers over whole status reports, and the
 * scenarios of the database manager's test suite: its status fixture, the
 * admin commands each scenario expects, and the errors it expects.
 */
module OvnDbScenarios {
  import opened Wrappers
  import opened Text
  import opened RaftStatus
  import opened OvnDbManager

  // ---------------------------------------------------------------------
  // Fixtures of the test suite

  function Ssl(host: string): Address {
    Address("ssl", host, "9643")
  }

  const LocalSid: string := "87f0d686-8a8d-4585-9513-45efac449101"

  function SelfEntry(): ServerEntry {
    ServerEntry("87f0", Ssl("10.1.1.185"), Self)
  }

  /** The consistent table: the local server and two healthy peers. */
  function Servers(): seq<ServerEntry> {
    [ SelfEntry(),
      ServerEntry("bbf6", Ssl("10.1.1.218"), LastMsg(2757)),
      ServerEntry("ad31", Ssl("10.1.1.211"), LastMsg(153868958)) ]
  }

  /** The table with a stale entry `3936` left at the local address. */
  function StaleServers(): seq<ServerEntry> {
    [ SelfEntry(),
      ServerEntry("3936", Ssl("10.1.1.185"), LastMsg(153868958)),
      ServerEntry("bbf6", Ssl("10.1.1.218"), LastMsg(2757)),
      ServerEntry("ad31", Ssl("10.1.1.211"), LastMsg(153868958)) ]
  }

  /** The table with two peers, `c10c` and `fc43`, at addresses outside the known members. */
  function UnknownServers(): seq<ServerEntry> {
    [ SelfEntry(),
      ServerEntry("c10c", Ssl("10.1.1.219"), LastMsg(2757)),
      ServerEntry("fc43", Ssl("10.1.1.220"), LastMsg(2123)),
      ServerEntry("bbf6", Ssl("10.1.1.218"), LastMsg(1543)),
      ServerEntry("ad31", Ssl("10.1.1.211"), LastMsg(153868958)) ]
  }

  function KnownMemberList(): seq<string> {
    ["ssl:10.1.1.185:9643", "ssl:10.1.1.218:9643", "ssl:10.1.1.211:9643"]
  }

  /** The fixture's status, leader with a 1000 ms timer, around a given table. */
  function FixtureStatus(servers: seq<ServerEntry>): ClusterStatus {
    ClusterStatus(Northbound, Ssl("10.1.1.185"), Leader, 1000, servers)
  }

  lemma SslValid(host: string)
    requires |host| > 0 && forall i :: 0 <= i < |host| ==> IsDigit(host[i]) || host[i] == '.'
    ensures ValidAddress(Ssl(host))
  {
  }

  lemma FixtureStatusValid(servers: seq<ServerEntry>)
    requires forall i :: 0 <= i < |servers| ==> ValidEntry(servers[i])
    ensures ValidStatus(FixtureStatus(servers))
  {
    SslValid("10.1.1.185");
  }

  lemma FixtureTablesValid()
    ensures forall i :: 0 <= i < |Servers()| ==> ValidEntry(Servers()[i])
    ensures forall i :: 0 <= i < |StaleServers()| ==> ValidEntry(StaleServers()[i])
    ensures forall i :: 0 <= i < |UnknownServers()| ==> ValidEntry(UnknownServers()[i])
  {
    SslValid("10.1.1.185");
    SslValid("10.1.1.218");
    SslValid("10.1.1.211");
    SslValid("10.1.1.219");
    SslValid("10.1.1.220");
  }

  // ---------------------------------------------------------------------
  // The local-identity reconciler over a rendered report

  /**
   * Over a well-formed report, the local-identity reconciler queries the
   * server ID and the status and then kicks exactly the stale IDs of the
   * report's table, in table order, stopping at the first refused kick.
   */
  lemma LocalServerIdOnReport(db: Db, admin: Admin, sid: string, st: ClusterStatus)
    requires ValidStatus(st)
    requires admin(ClusterSid(db.name)) == Ok(sid) && |sid| >= ShortIdLength
    requires admin(ClusterStatusQuery(db.name)) == Ok(Join(RenderReport(st), '\n'))
    ensures var ids := StaleIds(st.servers, st.address, sid[..ShortIdLength]);
            var r := EnsureLocalServerId(db, admin);
            && r.calls == [ClusterSid(db.name), ClusterStatusQuery(db.name)] + KickStale(db.name, ids, admin).calls
            && r.err == KickStale(db.name, ids, admin).err
            && (r.err.None? <==> forall i :: 0 <= i < |ids| ==> admin(ClusterKick(db.name, ids[i])).Ok?)
  {
    ReportLinesRoundTrip(st);
    ReportAddressOf(st);
    ReportServersRoundTrip(st);
  }

  /**
   * With exactly one stale ID, the reconciler issues the two queries and
   * that one kick, and reports the kick's refusal, if any.
   */
  lemma LocalServerIdOneKick(db: Db, admin: Admin, sid: string, st: ClusterStatus, stale: string)
    requires ValidStatus(st)
    requires admin(ClusterSid(db.name)) == Ok(sid) && |sid| >= ShortIdLength
    requires admin(ClusterStatusQuery(db.name)) == Ok(Join(RenderReport(st), '\n'))
    requires StaleIds(st.servers, st.address, sid[..ShortIdLength]) == [stale]
    ensures EnsureLocalServerId(db, admin)
            == Run([ClusterSid(db.name), ClusterStatusQuery(db.name), ClusterKick(db.name, stale)],
                   if admin(ClusterKick(db.name, stale)).Failed? then Some(StaleKickFailed(stale)) else None)
  {
    LocalServerIdOnReport(db, admin, sid, st);
    KickStaleOne(db.name, stale, admin);
  }

  /** Kicking a single ID issues that one kick and reports its refusal, if any. */
  lemma KickStaleOne(db: string, sid: string, admin: Admin)
    ensures KickStale(db, [sid], admin)
            == Run([ClusterKick(db, sid)], if admin(ClusterKick(db, sid)).Failed? then Some(StaleKickFailed(sid)) else None)
  {
    assert [sid][1..] == [];
  }

  /** A stale entry `3936` at the local address gets exactly one kick, for `3936`. */
  lemma StaleMemberKicked(admin: Admin, st: ClusterStatus)
    requires st == FixtureStatus(StaleServers())
    requires admin(ClusterSid(Northbound)) == Ok(LocalSid)
    requires admin(ClusterStatusQuery(Northbound)) == Ok(Join(RenderReport(st), '\n'))
    requires admin(ClusterKick(Northbound, "3936")) == Ok("started removal")
    ensures EnsureLocalServerId(Db(Northbound, "ovnnb", 1000), admin)
            == Run([ClusterSid(Northbound), ClusterStatusQuery(Northbound), ClusterKick(Northbound, "3936")], None)
  {
    StaleFixtureValid(st);
    LocalServerIdOneKick(Db(Northbound, "ovnnb", 1000), admin, LocalSid, st, "3936");
  }

  lemma StaleFixtureValid(st: ClusterStatus)
    requires st == FixtureStatus(StaleServers())
    ensures ValidStatus(st)
    ensures StaleIds(st.servers, st.address, LocalSid[..ShortIdLength]) == ["3936"]
  {
    FixtureTablesValid();
    FixtureStatusValid(StaleServers());
    assert LocalSid[..ShortIdLength] == "87f0";
  }

  /** A refused kick of the stale entry is reported as such. */
  lemma StaleKickRefused(admin: Admin, st: ClusterStatus)
    requires st == FixtureStatus(StaleServers())
    requires admin(ClusterSid(Northbound)) == Ok(LocalSid)
    requires admin(ClusterStatusQuery(Northbound)) == Ok(Join(RenderReport(st), '\n'))
    requires admin(ClusterKick(Northbound, "3936")).Failed?
    ensures EnsureLocalServerId(Db(Northbound, "ovnnb", 1000), admin)
            == Run([ClusterSid(Northbound), ClusterStatusQuery(Northbound), ClusterKick(Northbound, "3936")],
                   Some(StaleKickFailed("3936")))
  {
    StaleFixtureValid(st);
    LocalServerIdOneKick(Db(Northbound, "ovnnb", 1000), admin, LocalSid, st, "3936");
  }

  /** A consistent table needs no admin call beyond the two queries. */
  lemma ConsistentTableNoKick(admin: Admin, st: ClusterStatus)
    requires st == FixtureStatus(Servers())
    requires admin(ClusterSid(Northbound)) == Ok(LocalSid)
    requires admin(ClusterStatusQuery(Northbound)) == Ok(Join(RenderReport(st), '\n'))
    ensures EnsureLocalServerId(Db(Northbound, "ovnnb", 1000), admin)
            == Run([ClusterSid(Northbound), ClusterStatusQuery(Northbound)], None)
  {
    ConsistentFixtureValid(st);
    LocalServerIdOnReport(Db(Northbound, "ovnnb", 1000), admin, LocalSid, st);
  }

  lemma ConsistentFixtureValid(st: ClusterStatus)
    requires st == FixtureStatus(Servers())
    ensures ValidStatus(st)
    ensures StaleIds(st.servers, st.address, LocalSid[..ShortIdLength]) == []
  {
    FixtureTablesValid();
    FixtureStatusValid(Servers());
    assert LocalSid[..ShortIdLength] == "87f0";
  }

  /** A report whose `Address` is a URL is rejected before any kick. */
  lemma UrlAddressScenario(admin: Admin, out: string)
    requires admin(ClusterSid(Northbound)) == Ok(LocalSid)
    requires admin(ClusterStatusQuery(Northbound)) == Ok(out)
    requires FieldValue(Split(out, '\n'), "Address") == Some("http://10.1.1.185:9643")
    ensures EnsureLocalServerId(Db(Northbound, "ovnnb", 1000), admin)
            == Run([ClusterSid(Northbound), ClusterStatusQuery(Northbound)], Some(AddressUnparsable))
  {
    UrlAddressRejected("http://10.1.1.185:9643");
  }

  /** The table without the entries whose IDs were kicked. */
  function WithoutIds(servers: seq<ServerEntry>, ids: seq<string>): (r: seq<ServerEntry>)
    ensures forall e :: e in r <==> e in servers && e.sid !in ids
  {
    if |servers| == 0 then []
    else
      var rest := WithoutIds(servers[1..], ids);
      assert forall e :: e in servers <==> e == servers[0] || e in servers[1..];
      if servers[0].sid in ids then rest else [servers[0]] + rest
  }

  /**
   * Once the kicked entries have left the table, a second pass finds
   * nothing stale: the reconciler issues at most one round of kicks.
   */
  lemma StaleKicksSettle(servers: seq<ServerEntry>, local: Address, shortId: string)
    ensures StaleIds(WithoutIds(servers, StaleIds(servers, local, shortId)), local, shortId) == []
  {
    var ids := StaleIds(servers, local, shortId);
    var rest := WithoutIds(servers, ids);
    StaleIdsExact(servers, local, shortId);
    forall e | e in rest
      ensures !IsStale(e, local, shortId)
    {
    }
    StaleIdsNone(rest, local, shortId);
  }

  /** Whole-reconciler form: after the kicks took effect, the next pass issues only the two queries. */
  lemma LocalServerIdSettles(db: Db, admin: Admin, sid: string, st: ClusterStatus)
    requires ValidStatus(st)
    requires admin(ClusterSid(db.name)) == Ok(sid) && |sid| >= ShortIdLength
    requires admin(ClusterStatusQuery(db.name))
             == Ok(Join(RenderReport(st.(servers := WithoutIds(st.servers, StaleIds(st.servers, st.address, sid[..ShortIdLength])))), '\n'))
    ensures EnsureLocalServerId(db, admin) == Run([ClusterSid(db.name), ClusterStatusQuery(db.name)], None)
  {
    var st' := st.(servers := WithoutIds(st.servers, StaleIds(st.servers, st.address, sid[..ShortIdLength])));
    assert forall i :: 0 <= i < |st'.servers| ==> st'.servers[i] in st.servers;
    assert ValidStatus(st');
    LocalServerIdOnReport(db, admin, sid, st');
    StaleKicksSettle(st.servers, st.address, sid[..ShortIdLength]);
    var r := EnsureLocalServerId(db, admin);
    assert r.calls == r.calls[..2] + r.calls[2..];
  }

  // ---------------------------------------------------------------------
  // The membership reconciler

  /**
   * Over a well-formed report, the membership reconciler queries the
   * status once and then kicks exactly the unknown peers of the table, in
   * table order; with every kick accepted no error is reported.
   */
  lemma MembershipOnReport(db: Db, cfg: Config, admin: Admin, out: string, servers: seq<ServerEntry>, known: seq<string>)
    requires KnownMembers(db.name, cfg) == Some(known)
    requires admin(ClusterStatusQuery(db.name)) == Ok(out)
    requires ReportServers(Split(out, '\n')) == servers
    requires forall s :: s in UnknownIds(servers, known) ==> admin(ClusterKick(db.name, s)).Ok?
    ensures var ids := UnknownIds(servers, known);
            var r := EnsureClusterMembership(db, cfg, admin);
            && |r.calls| == |ids| + 1
            && r.calls[0] == ClusterStatusQuery(db.name)
            && (forall i :: 0 <= i < |ids| ==> r.calls[i + 1] == ClusterKick(db.name, ids[i]))
            && r.err.None?
  {
    var r := EnsureClusterMembership(db, cfg, admin);
    assert forall i :: 1 <= i < |r.calls| ==> r.calls[i] == r.calls[1..][i - 1];
  }

  /** The table a rendered report carries is read back from the admin reply. */
  lemma ServersOfReply(st: ClusterStatus)
    requires ValidStatus(st)
    ensures ReportServers(Split(Join(RenderReport(st), '\n'), '\n')) == st.servers
  {
    ReportLinesRoundTrip(st);
    ReportServersRoundTrip(st);
  }

  /**
   * With the known members `.185`, `.218` and `.211`, exactly the two
   * peers at `.219` and `.220` are kicked, in table order.
   */
  lemma UnknownMembersKicked(cfg: Config, admin: Admin, st: ClusterStatus)
    requires st == FixtureStatus(UnknownServers())
    requires cfg.northAddress == Join(KnownMemberList(), ',')
    requires admin(ClusterStatusQuery(Northbound)) == Ok(Join(RenderReport(st), '\n'))
    requires admin(ClusterKick(Northbound, "c10c")).Ok? && admin(ClusterKick(Northbound, "fc43")).Ok?
    ensures EnsureClusterMembership(Db(Northbound, "ovnnb", 1000), cfg, admin)
            == Run([ClusterStatusQuery(Northbound), ClusterKick(Northbound, "c10c"), ClusterKick(Northbound, "fc43")], None)
  {
    UnknownFixture(st, cfg);
    ServersOfReply(st);
    MembershipTwoKicks(Db(Northbound, "ovnnb", 1000), cfg, admin, Join(RenderReport(st), '\n'), st.servers,
                       KnownMemberList(), "c10c", "fc43");
  }

  /** With exactly two unknown peers whose kicks succeed, the reconciler issues the query and both kicks. */
  lemma MembershipTwoKicks(db: Db, cfg: Config, admin: Admin, out: string, servers: seq<ServerEntry>,
                           known: seq<string>, a: string, b: string)
    requires KnownMembers(db.name, cfg) == Some(known)
    requires admin(ClusterStatusQuery(db.name)) == Ok(out)
    requires ReportServers(Split(out, '\n')) == servers
    requires UnknownIds(servers, known) == [a, b]
    requires admin(ClusterKick(db.name, a)).Ok? && admin(ClusterKick(db.name, b)).Ok?
    ensures EnsureClusterMembership(db, cfg, admin)
            == Run([ClusterStatusQuery(db.name), ClusterKick(db.name, a), ClusterKick(db.name, b)], None)
  {
    MembershipOnReport(db, cfg, admin, out, servers, known);
  }

  lemma UnknownFixture(st: ClusterStatus, cfg: Config)
    requires st == FixtureStatus(UnknownServers())
    requires cfg.northAddress == Join(KnownMemberList(), ',')
    ensures ValidStatus(st)
    ensures KnownMembers(Northbound, cfg) == Some(KnownMemberList())
    ensures UnknownIds(st.servers, KnownMemberList()) == ["c10c", "fc43"]
  {
    FixtureTablesValid();
    FixtureStatusValid(UnknownServers());
    SplitJoin(KnownMemberList(), ',');
    UnknownFixtureIds();
  }

  /** A string differing from every listed string at one position is not listed. */
  lemma NotListed(x: string, k: seq<string>, idx: nat)
    requires idx < |x|
    requires forall i :: 0 <= i < |k| ==> idx < |k[i]| && k[i][idx] != x[idx]
    ensures x !in k
  {
  }

  /** The unknown IDs of a table are the first entry's, if it is unknown, ahead of the rest's. */
  lemma UnknownIdsCons(e: ServerEntry, rest: seq<ServerEntry>, known: seq<string>)
    ensures UnknownIds([e] + rest, known) == (if IsUnknown(e, known) then [e.sid] else []) + UnknownIds(rest, known)
  {
    assert ([e] + rest)[0] == e && ([e] + rest)[1..] == rest;
  }

  /** The fixture peers at `.219` and `.220` are unknown. */
  lemma FixturePeersUnknown()
    ensures IsUnknown(UnknownServers()[1], KnownMemberList())
    ensures IsUnknown(UnknownServers()[2], KnownMemberList())
  {
    var k := KnownMemberList();
    assert k[0][12] == '8' && k[1][12] == '1' && k[2][12] == '1';
    assert k[0][13] == '5' && k[1][13] == '8' && k[2][13] == '1';
    NotListed(RenderAddress(Ssl("10.1.1.219")), k, 13);
    NotListed(RenderAddress(Ssl("10.1.1.220")), k, 12);
  }

  /** The fixture peers at `.218` and `.211` are known members. */
  lemma FixturePeersKnown()
    ensures !IsUnknown(UnknownServers()[3], KnownMemberList())
    ensures !IsUnknown(UnknownServers()[4], KnownMemberList())
  {
    assert RenderAddress(Ssl("10.1.1.218")) == KnownMemberList()[1];
    assert RenderAddress(Ssl("10.1.1.211")) == KnownMemberList()[2];
  }

  lemma UnknownFixtureIds()
    ensures UnknownIds(UnknownServers(), KnownMemberList()) == ["c10c", "fc43"]
  {
    var k := KnownMemberList();
    var s := UnknownServers();
    FixturePeersUnknown();
    FixturePeersKnown();
    assert !IsUnknown(s[0], k);
    assert s == [s[0]] + ([s[1]] + ([s[2]] + ([s[3]] + ([s[4]] + []))));
    UnknownIdsCons(s[4], [], k);
    UnknownIdsCons(s[3], [s[4]] + [], k);
    UnknownIdsCons(s[2], [s[3]] + ([s[4]] + []), k);
    UnknownIdsCons(s[1], [s[2]] + ([s[3]] + ([s[4]] + [])), k);
    UnknownIdsCons(s[0], [s[1]] + ([s[2]] + ([s[3]] + ([s[4]] + []))), k);
  }

  /** The membership reconciler never kicks the local server when short IDs are unique. */
  lemma SelfNeverUnknown(servers: seq<ServerEntry>, known: seq<string>, k: nat)
    requires k < |servers| && servers[k].liveness.Self?
    requires forall i, j :: 0 <= i < j < |servers| ==> servers[i].sid != servers[j].sid
    ensures servers[k].sid !in UnknownIds(servers, known)
  {
    UnknownIdsExact(servers, known);
    forall e | e in servers && IsUnknown(e, known) ensures e.sid != servers[k].sid {
      var j :| 0 <= j < |servers| && servers[j] == e;
      assert j != k;
    }
  }

  // ---------------------------------------------------------------------
  // The election-timer tuner

  lemma FixtureTimer(out: string)
    requires FieldValue(Split(out, '\n'), "Election timer") == Some("1500")
    ensures ReportElectionTimer(Split(out, '\n')) == Some(1500)
  {
    assert ShowNat(1500) == "1500";
  }

  /** A leader at 1500 ms with a 2000 ms target changes the timer to 2000 ms. */
  lemma TimerRaisedToTarget(admin: Admin, out: string)
    requires admin(ClusterStatusQuery(Northbound)) == Ok(out)
    requires FieldValue(Split(out, '\n'), "Role") == Some("leader")
    requires FieldValue(Split(out, '\n'), "Election timer") == Some("1500")
    requires admin(ChangeElectionTimer(Northbound, 2000)).Ok?
    ensures EnsureElectionTimeout(Db(Northbound, "ovnnb", 2000), admin)
            == Run([ClusterStatusQuery(Northbound), ChangeElectionTimer(Northbound, 2000)], None)
  {
    FixtureTimer(out);
  }

  /** A leader at 1500 ms with a 5000 ms target is raised only to 3000 ms, twice its timer. */
  lemma TimerRaiseClamped(admin: Admin, out: string)
    requires admin(ClusterStatusQuery(Northbound)) == Ok(out)
    requires FieldValue(Split(out, '\n'), "Role") == Some("leader")
    requires FieldValue(Split(out, '\n'), "Election timer") == Some("1500")
    ensures var r := EnsureElectionTimeout(Db(Northbound, "ovnnb", 5000), admin);
            && r.calls == [ClusterStatusQuery(Northbound), ChangeElectionTimer(Northbound, 3000)]
            && (admin(ChangeElectionTimer(Northbound, 3000)).Failed? <==> r.err == Some(TimerChangeFailed(3000)))
  {
    FixtureTimer(out);
  }

  /** The commands of the scenarios carry exactly the argument lists the test suite's admin mock is keyed on. */
  lemma ScenarioArgs()
    ensures Args(ClusterSid(Northbound)) == ["cluster/sid", "OVN_Northbound"]
    ensures Args(ClusterStatusQuery(Northbound)) == ["cluster/status", "OVN_Northbound"]
    ensures Args(ClusterKick(Northbound, "3936")) == ["cluster/kick", "OVN_Northbound", "3936"]
    ensures Args(ChangeElectionTimer(Northbound, 2000)) == ["cluster/change-election-timer", "OVN_Northbound", "2000"]
    ensures Args(ChangeElectionTimer(Northbound, 3000)) == ["cluster/change-election-timer", "OVN_Northbound", "3000"]
    ensures Args(Exit) == ["exit"]
  {
    assert ShowNat(2000) == "2000";
    assert ShowNat(3000) == "3000";
  }

  /** A non-numeric election timer fails the leader's pass and issues nothing else. */
  lemma TimerNotNumeric(db: Db, admin: Admin, out: string)
    requires admin(ClusterStatusQuery(db.name)) == Ok(out)
    requires FieldValue(Split(out, '\n'), "Role") == Some("leader")
    requires FieldValue(Split(out, '\n'), "Election timer") == Some("a")
    ensures EnsureElectionTimeout(db, admin) == Run([ClusterStatusQuery(db.name)], Some(TimerUnparsable))
  {
    assert !IsDigit('a');
  }

  /** A follower issues nothing beyond the status query, whatever its timer. */
  lemma FollowerIdle(db: Db, admin: Admin, out: string)
    requires admin(ClusterStatusQuery(db.name)) == Ok(out)
    requires FieldValue(Split(out, '\n'), "Role") == Some("follower")
    ensures EnsureElectionTimeout(db, admin) == Run([ClusterStatusQuery(db.name)], None)
  {
  }

  /** A leader already at its 1000 ms target issues nothing beyond the status query. */
  lemma LeaderAtTarget(admin: Admin, out: string)
    requires admin(ClusterStatusQuery(Northbound)) == Ok(out)
    requires FieldValue(Split(out, '\n'), "Role") == Some("leader")
    requires FieldValue(Split(out, '\n'), "Election timer") == Some("1000")
    ensures EnsureElectionTimeout(Db(Northbound, "ovnnb", 1000), admin) == Run([ClusterStatusQuery(Northbound)], None)
  {
    Timer1000(out);
  }

  lemma Timer1000(out: string)
    requires FieldValue(Split(out, '\n'), "Election timer") == Some("1000")
    ensures ReportElectionTimer(Split(out, '\n')) == Some(1000)
  {
    assert ShowNat(1000) == "1000";
  }

  // ---------------------------------------------------------------------
  // Membership and reset error paths

  /** A misspelt database name is rejected before any admin call. */
  lemma InvalidNameRejected(cfg: Config, admin: Admin)
    ensures EnsureClusterMembership(Db("OVN_Northboundd", "ovnnb", 1000), cfg, admin)
            == Run([], Some(InvalidDatabaseName("OVN_Northboundd")))
  {
    assert "OVN_Northboundd" != Northbound && "OVN_Northboundd" != Southbound;
  }

  /** Without the database file the reset fails before asking the server to exit. */
  lemma ResetWithoutDbFile(files: set<string>, stamp: string, admin: Admin)
    requires "ovnnb" !in files
    ensures ResetRaftDb(Db(Northbound, "ovnnb", 1000), files, stamp, admin) == Reset("", files, [], Some(BackupFailed))
  {
  }

  /** With the database file, the reset moves it aside and asks the server to exit; a refused exit is reported. */
  lemma ResetMovesThenExits(files: set<string>, stamp: string, admin: Admin)
    requires "ovnnb" in files
    ensures var r := ResetRaftDb(Db(Northbound, "ovnnb", 1000), files, stamp, admin);
            && r.backup == BackupName("ovnnb", stamp)
            && r.effects == [MoveFile("ovnnb", r.backup), AdminCall(Exit)]
            && "ovnnb" !in r.files && r.backup in r.files
            && (r.err.None? <==> admin(Exit).Ok?)
            && (r.err.Some? ==> r.err == Some(RestartFailed))
  {
  }
}
