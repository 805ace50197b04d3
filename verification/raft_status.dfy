/**
 * The free-text report printed by the OVSDB server's `cluster/status`
 * command, and the pieces of it the raft reconcilers read: the local
 * `Address`, the `Role`, the `Election timer`, and the `Servers:` table
 * whose entries look like
 *     87f0 (87f0 at ssl:10.1.1.185:9643) (self)
 *     bbf6 (bbf6 at ssl:10.1.1.218:9643) last msg 2757 ms ago
 * Each field is looked up on its own, so a report whose `Address` is
 * malformed still yields its role and election timer.
 */
module RaftStatus {
  import opened Wrappers
  import opened Text

  /** A raft member's network address, `proto:host:port`. */
  datatype Address = Address(proto: string, host: string, port: string)

  predicate IsLower(c: char) {
    'a' <= c <= 'z'
  }

  predicate IsHostChar(c: char) {
    IsLower(c) || ('A' <= c <= 'Z') || IsDigit(c) || c == '.' || c == '-'
  }

  predicate ValidAddress(a: Address) {
    && |a.proto| > 0 && (forall i :: 0 <= i < |a.proto| ==> IsLower(a.proto[i]))
    && |a.host| > 0 && (forall i :: 0 <= i < |a.host| ==> IsHostChar(a.host[i]))
    && |a.port| > 0 && AllDigits(a.port)
  }

  function RenderAddress(a: Address): string {
    a.proto + ":" + a.host + ":" + a.port
  }

  /** Reads `proto:host:port`; anything else (a URL, a bracketed host, a missing port) is rejected. */
  function ParseAddress(s: string): (r: Option<Address>)
    ensures r.Some? ==> ValidAddress(r.value) && RenderAddress(r.value) == s
  {
    var parts := Split(s, ':');
    if |parts| == 3 && ValidAddress(Address(parts[0], parts[1], parts[2])) then
      JoinThree(parts, ':');
      Some(Address(parts[0], parts[1], parts[2]))
    else None
  }

  lemma JoinThree(p: seq<string>, sep: char)
    requires |p| == 3
    ensures Join(p, sep) == p[0] + [sep] + p[1] + [sep] + p[2]
  {
    assert p[1..][1..] == [p[2]];
    assert Join(p[1..], sep) == p[1] + [sep] + p[2];
  }

  predicate NoColon(s: string) {
    forall i :: 0 <= i < |s| ==> s[i] != ':'
  }

  /** Every well-formed address is read back exactly. */
  lemma ParseRenderAddress(a: Address)
    requires ValidAddress(a)
    ensures ParseAddress(RenderAddress(a)) == Some(a)
  {
    var parts := [a.proto, a.host, a.port];
    JoinThree(parts, ':');
    assert NoColon(a.host) by {
      forall i | 0 <= i < |a.host| ensures a.host[i] != ':' {
        assert IsHostChar(a.host[i]);
      }
    }
    assert NoColon(a.proto) by {
      forall i | 0 <= i < |a.proto| ensures a.proto[i] != ':' {
        assert IsLower(a.proto[i]);
      }
    }
    assert NoColon(a.port) by {
      forall i | 0 <= i < |a.port| ensures a.port[i] != ':' {
        assert IsDigit(a.port[i]);
      }
    }
    SplitJoin(parts, ':');
  }

  /**
   * A string whose protocol word is followed by a character no host may
   * start with (the `//` of a URL, say) is not an address.
   */
  lemma BadHostRejected(s: string, k: nat)
    requires k + 1 < |s| && s[k] == ':' && !IsHostChar(s[k + 1])
    requires forall i :: 0 <= i < k ==> IsLower(s[i])
    ensures ParseAddress(s) == None
  {
  }

  /** The `Address` of the unparsable-address scenario, a URL, is rejected. */
  lemma UrlAddressRejected(s: string)
    requires s == "http://10.1.1.185:9643"
    ensures ParseAddress(s) == None
  {
    BadHostRejected(s, 4);
  }

  /** Whether an entry is the local server itself or a peer last heard from `ms` ago. */
  datatype Liveness = Self | LastMsg(ms: nat)

  /** One line of the `Servers:` table. */
  datatype ServerEntry = ServerEntry(sid: string, address: Address, liveness: Liveness)

  predicate IsHex(c: char) {
    IsDigit(c) || ('a' <= c <= 'f')
  }

  /** A raft short server ID: four lower-case hex digits. */
  predicate ValidShortId(s: string) {
    |s| == 4 && forall i :: 0 <= i < |s| ==> IsHex(s[i])
  }

  predicate ValidEntry(e: ServerEntry) {
    ValidShortId(e.sid) && ValidAddress(e.address)
  }

  function LivenessWords(l: Liveness): seq<string> {
    match l
    case Self => ["(self)"]
    case LastMsg(ms) => ["last", "msg", ShowNat(ms), "ms", "ago"]
  }

  function EntryWords(e: ServerEntry): seq<string> {
    [e.sid, "(" + e.sid, "at", RenderAddress(e.address) + ")"] + LivenessWords(e.liveness)
  }

  /** The line the server prints for an entry, indented by four spaces. */
  function RenderServerLine(e: ServerEntry): string {
    "    " + Join(EntryWords(e), ' ')
  }

  /** Reads the liveness words that follow `sid (sid at address)`. */
  function ParseLiveness(w: seq<string>): (r: Option<Liveness>)
    ensures r.Some? ==> LivenessWords(r.value) == w
  {
    if w == ["(self)"] then Some(Self)
    else if |w| == 5 && w[0] == "last" && w[1] == "msg" && w[3] == "ms" && w[4] == "ago"
            && ParseNat(w[2]).Some? && ShowNat(ParseNat(w[2]).value) == w[2] then
      Some(LastMsg(ParseNat(w[2]).value))
    else None
  }

  /** Reads the words of a `Servers:` entry. */
  function ParseEntryWords(w: seq<string>): (r: Option<ServerEntry>)
    ensures r.Some? ==> ValidEntry(r.value)
  {
    if |w| < 5 || !ValidShortId(w[0]) || |w[1]| != 5 || w[1][0] != '(' || !ValidShortId(w[1][1..])
       || w[2] != "at" || |w[3]| == 0 || w[3][|w[3]| - 1] != ')' then None
    else
      match (ParseAddress(w[3][..|w[3]| - 1]), ParseLiveness(w[4..]))
      case (Some(a), Some(l)) => Some(ServerEntry(w[0], a, l))
      case _ => None
  }

  /**
   * Reads one `Servers:` line: `sid (sid at proto:host:port)` followed by
   * `(self)` or `last msg N ms ago`. Lines of any other shape give None.
   */
  function ParseServerLine(line: string): (r: Option<ServerEntry>)
    ensures r.Some? ==> ValidEntry(r.value)
  {
    ParseEntryWords(Split(TrimLeft(line, {' '}), ' '))
  }

  lemma NoSpaceInAddress(a: Address)
    requires ValidAddress(a)
    ensures ' ' !in RenderAddress(a) + ")"
  {
    var s := RenderAddress(a) + ")";
    forall i | 0 <= i < |s| ensures s[i] != ' ' {
      if i < |a.proto| {
        assert s[i] == a.proto[i] && IsLower(a.proto[i]);
      } else if i == |a.proto| {
      } else if i < |a.proto| + 1 + |a.host| {
        assert s[i] == a.host[i - |a.proto| - 1] && IsHostChar(a.host[i - |a.proto| - 1]);
      } else if i == |a.proto| + 1 + |a.host| {
      } else if i < |s| - 1 {
        assert s[i] == a.port[i - |a.proto| - 2 - |a.host|] && IsDigit(a.port[i - |a.proto| - 2 - |a.host|]);
      }
    }
  }

  lemma NoSpaceInShortId(sid: string)
    requires ValidShortId(sid)
    ensures ' ' !in sid && '\n' !in sid
  {
    forall i | 0 <= i < |sid| ensures sid[i] != ' ' && sid[i] != '\n' {
      assert IsHex(sid[i]);
    }
  }

  lemma NoSpaceInNat(n: nat)
    ensures ' ' !in ShowNat(n) && '\n' !in ShowNat(n)
  {
    var d := ShowNat(n);
    forall i | 0 <= i < |d| ensures d[i] != ' ' && d[i] != '\n' {
      assert IsDigit(d[i]);
    }
  }

  lemma WordsHaveNoSpace(e: ServerEntry)
    requires ValidEntry(e)
    ensures forall i :: 0 <= i < |EntryWords(e)| ==> ' ' !in EntryWords(e)[i]
  {
    NoSpaceInShortId(e.sid);
    NoSpaceInAddress(e.address);
    if e.liveness.LastMsg? {
      NoSpaceInNat(e.liveness.ms);
    }
  }

  /** The words of an entry's line are exactly the entry's words. */
  lemma WordsOfServerLine(e: ServerEntry)
    requires ValidEntry(e)
    ensures Split(TrimLeft(RenderServerLine(e), {' '}), ' ') == EntryWords(e)
  {
    var w := EntryWords(e);
    WordsHaveNoSpace(e);
    var body := Join(w, ' ');
    assert body == e.sid + [' '] + Join(w[1..], ' ');
    assert body[0] == e.sid[0];
    assert body[0] != ' ' by {
      assert IsHex(e.sid[0]);
    }
    TrimLeftPadding("    ", body, {' '});
    SplitJoin(w, ' ');
  }

  lemma ParseEntryWordsOf(e: ServerEntry)
    requires ValidEntry(e)
    ensures ParseEntryWords(EntryWords(e)) == Some(e)
  {
    var w := EntryWords(e);
    assert ("(" + e.sid)[1..] == e.sid;
    var addrWord := RenderAddress(e.address) + ")";
    assert addrWord[..|addrWord| - 1] == RenderAddress(e.address);
    ParseRenderAddress(e.address);
    assert w[4..] == LivenessWords(e.liveness);
  }

  /** Every well-formed entry is read back exactly from the line the server prints for it. */
  lemma ParseRenderServerLine(e: ServerEntry)
    requires ValidEntry(e)
    ensures ParseServerLine(RenderServerLine(e)) == Some(e)
  {
    WordsOfServerLine(e);
    ParseEntryWordsOf(e);
  }

  /** The raft role a server reports. */
  datatype Role = Leader | Follower | Candidate

  function RoleName(r: Role): string {
    match r
    case Leader => "leader"
    case Follower => "follower"
    case Candidate => "candidate"
  }

  /** The value of the first `key: value` line of a report, if any. */
  function FieldValue(lines: seq<string>, key: string): (r: Option<string>)
    ensures r.Some? <==> exists i :: 0 <= i < |lines| && key + ": " <= lines[i]
    ensures r.Some? ==> exists i :: 0 <= i < |lines| && lines[i] == key + ": " + r.value
                                     && forall j :: 0 <= j < i ==> !(key + ": " <= lines[j])
  {
    if |lines| == 0 then None
    else if key + ": " <= lines[0] then
      assert lines[0] == key + ": " + lines[0][|key| + 2..];
      Some(lines[0][|key| + 2..])
    else
      var r := FieldValue(lines[1..], key);
      assert forall i :: 1 <= i < |lines| ==> lines[i] == lines[1..][i - 1];
      r
  }

  /** The local server's address, from the `Address:` line. */
  function ReportAddress(lines: seq<string>): Option<Address> {
    match FieldValue(lines, "Address")
    case Some(v) => ParseAddress(v)
    case None => None
  }

  /** The local server's role word, from the `Role:` line. */
  function ReportRole(lines: seq<string>): Option<string> {
    FieldValue(lines, "Role")
  }

  /** The current election timer in milliseconds, from the `Election timer:` line. */
  function ReportElectionTimer(lines: seq<string>): Option<nat> {
    match FieldValue(lines, "Election timer")
    case Some(v) => ParseNat(v)
    case None => None
  }

  /** The lines that follow the first `Servers:` header (none when there is no header). */
  function ServerTable(lines: seq<string>): (r: seq<string>)
    ensures |r| <= |lines|
  {
    if |lines| == 0 then []
    else if lines[0] == "Servers:" then lines[1..]
    else ServerTable(lines[1..])
  }

  /** The table lines that read as server entries, in report order; other lines are skipped. */
  function ParseServerLines(lines: seq<string>): (r: seq<ServerEntry>)
    ensures |r| <= |lines|
    ensures forall i :: 0 <= i < |r| ==> ValidEntry(r[i])
  {
    if |lines| == 0 then []
    else
      match ParseServerLine(lines[0])
      case Some(e) => [e] + ParseServerLines(lines[1..])
      case None => ParseServerLines(lines[1..])
  }

  /** The entries of the report's `Servers:` table. */
  function ReportServers(lines: seq<string>): (r: seq<ServerEntry>)
    ensures forall i :: 0 <= i < |r| ==> ValidEntry(r[i])
  {
    ParseServerLines(ServerTable(lines))
  }

  /** The structured content of one `cluster/status` report. */
  datatype ClusterStatus = ClusterStatus(
    name: string,
    address: Address,
    role: Role,
    electionTimer: nat,
    servers: seq<ServerEntry>)

  predicate ValidStatus(st: ClusterStatus) {
    && '\n' !in st.name
    && ValidAddress(st.address)
    && forall i :: 0 <= i < |st.servers| ==> ValidEntry(st.servers[i])
  }

  function RenderServerLines(servers: seq<ServerEntry>): (r: seq<string>)
    ensures |r| == |servers|
    ensures forall i :: 0 <= i < |r| ==> r[i] == RenderServerLine(servers[i])
  {
    if |servers| == 0 then [] else [RenderServerLine(servers[0])] + RenderServerLines(servers[1..])
  }

  /**
   * The report lines the server prints for a status, laid out as the test
   * suite's status template: the name, address, role and election timer in
   * their places, the `Servers:` table last, and every other line the
   * template's fixed text.
   */
  function RenderReport(st: ClusterStatus): seq<string> {
    ReportPreamble(st) + ["Servers:"] + RenderServerLines(st.servers)
  }

  /** The template's lines ahead of the `Servers:` header. */
  function ReportPreamble(st: ClusterStatus): seq<string> {
    [ "87f0",
      "Name: " + st.name,
      "Cluster ID: " + "f832 (f832bbff-e28c-4656-83f0-075e91a7ab8f)",
      "Server ID: " + "87f0 (87f0d686-8a8d-4585-9513-45efac449101)",
      "Address: " + RenderAddress(st.address),
      "Status: cluster member",
      "Role: " + RoleName(st.role),
      "Term: 4",
      "Leader: bbf6",
      "Vote: unknown",
      "",
      "Election timer: " + ShowNat(st.electionTimer),
      "Log: [19418, 26772]",
      "Entries not yet committed: 0",
      "Entries not yet applied: 0",
      "Connections: ->bbf6 ->ad31 <-bbf6 <-ad31",
      "Disconnections: 1" ]
  }

  lemma {:induction false} ServersOfRendered(servers: seq<ServerEntry>)
    requires forall i :: 0 <= i < |servers| ==> ValidEntry(servers[i])
    ensures ParseServerLines(RenderServerLines(servers)) == servers
    decreases |servers|
  {
    if |servers| > 0 {
      var head := RenderServerLine(servers[0]);
      var rest := RenderServerLines(servers[1..]);
      assert RenderServerLines(servers) == [head] + rest;
      ParseRenderServerLine(servers[0]);
      ParseLinesCons(head, rest, servers[0]);
      ServersOfRendered(servers[1..]);
      assert [servers[0]] + servers[1..] == servers;
    }
  }

  /** A line that reads as an entry contributes that entry ahead of the rest. */
  lemma ParseLinesCons(line: string, rest: seq<string>, e: ServerEntry)
    requires ParseServerLine(line) == Some(e)
    ensures ParseServerLines([line] + rest) == [e] + ParseServerLines(rest)
  {
    assert ([line] + rest)[1..] == rest;
  }

  /** The report's lines survive being joined with line breaks and split again. */
  lemma ReportLinesRoundTrip(st: ClusterStatus)
    requires ValidStatus(st)
    ensures Split(Join(RenderReport(st), '\n'), '\n') == RenderReport(st)
  {
    var lines := RenderReport(st);
    ReportLines(st);
    PreambleNoBreak(st);
    forall i | 0 <= i < |lines| ensures '\n' !in lines[i] {
      if i >= 18 {
        NoBreakInServerLine(st.servers[i - 18]);
        assert lines[i] == RenderServerLine(st.servers[i - 18]);
      } else if i < 17 {
        assert lines[i] == ReportPreamble(st)[i];
      }
    }
    SplitJoin(lines, '\n');
  }

  /** The address, role and election timer come back from a rendered report. */
  lemma ReportFieldsRoundTrip(st: ClusterStatus)
    requires ValidStatus(st)
    ensures ReportAddress(RenderReport(st)) == Some(st.address)
    ensures ReportRole(RenderReport(st)) == Some(RoleName(st.role))
    ensures ReportElectionTimer(RenderReport(st)) == Some(st.electionTimer)
  {
    ReportAddressOf(st);
    ReportRoleOf(st);
    ReportTimerOf(st);
  }

  /** The report's lines are the preamble's, then the header, then the table. */
  lemma ReportLines(st: ClusterStatus)
    ensures var lines := RenderReport(st);
      && |lines| == 18 + |st.servers|
      && (forall i :: 0 <= i < 17 ==> lines[i] == ReportPreamble(st)[i])
      && lines[17] == "Servers:" && lines[18..] == RenderServerLines(st.servers)
  {
  }

  /** No preamble line holds a line break. */
  lemma PreambleNoBreak(st: ClusterStatus)
    requires ValidStatus(st)
    ensures forall i :: 0 <= i < 17 ==> '\n' !in ReportPreamble(st)[i]
  {
    forall i | 0 <= i < 17 ensures '\n' !in ReportPreamble(st)[i] {
      if i in {1, 4, 6, 11} {
        PreambleFieldNoBreak(st, i);
      } else if i in {2, 3} {
        PreambleIdNoBreak(st, i);
      } else {
        PreambleFixedNoBreak(st, i);
      }
    }
  }

  lemma PreambleFieldNoBreak(st: ClusterStatus, i: nat)
    requires ValidStatus(st)
    requires i in {1, 4, 6, 11}
    ensures '\n' !in ReportPreamble(st)[i]
  {
    var p := ReportPreamble(st);
    if i == 1 {
      assert p[1] == "Name: " + st.name;
      NoBreakInConcat("Name: ", st.name);
    } else if i == 4 {
      assert p[4] == "Address: " + RenderAddress(st.address);
      NoBreakInAddress(st.address);
      NoBreakInConcat("Address: ", RenderAddress(st.address));
    } else if i == 6 {
      assert p[6] == "Role: " + RoleName(st.role);
      NoBreakInConcat("Role: ", RoleName(st.role));
    } else {
      assert p[11] == "Election timer: " + ShowNat(st.electionTimer);
      NoSpaceInNat(st.electionTimer);
      NoBreakInConcat("Election timer: ", ShowNat(st.electionTimer));
    }
  }

  lemma PreambleIdNoBreak(st: ClusterStatus, i: nat)
    requires i in {2, 3}
    ensures '\n' !in ReportPreamble(st)[i]
  {
    var p := ReportPreamble(st);
    if i == 2 {
      assert p[2] == "Cluster ID: " + "f832 (f832bbff-e28c-4656-83f0-075e91a7ab8f)";
      NoBreakInConcat("Cluster ID: ", "f832 (f832bbff-e28c-4656-83f0-075e91a7ab8f)");
    } else {
      assert p[3] == "Server ID: " + "87f0 (87f0d686-8a8d-4585-9513-45efac449101)";
      NoBreakInConcat("Server ID: ", "87f0 (87f0d686-8a8d-4585-9513-45efac449101)");
    }
  }

  lemma NoBreakInConcat(a: string, b: string)
    requires '\n' !in a && '\n' !in b
    ensures '\n' !in a + b
  {
  }

  lemma PreambleFixedNoBreak(st: ClusterStatus, i: nat)
    requires i in {0, 5, 7, 8, 9, 10, 12, 13, 14, 15, 16}
    ensures '\n' !in ReportPreamble(st)[i]
  {
    var p := ReportPreamble(st);
    if i == 0 { assert p[0] == "87f0"; }
    else if i == 5 { assert p[5] == "Status: cluster member"; }
    else if i == 7 { assert p[7] == "Term: 4"; }
    else if i == 8 { assert p[8] == "Leader: bbf6"; }
    else if i == 9 { assert p[9] == "Vote: unknown"; }
    else if i == 10 { assert p[10] == ""; }
    else if i == 12 { assert p[12] == "Log: [19418, 26772]"; }
    else if i == 13 { assert p[13] == "Entries not yet committed: 0"; }
    else if i == 14 { assert p[14] == "Entries not yet applied: 0"; }
    else if i == 15 { assert p[15] == "Connections: ->bbf6 ->ad31 <-bbf6 <-ad31"; }
    else { assert p[16] == "Disconnections: 1"; }
  }

  /** The first characters of the preamble's lines up to the `Address:` line. */
  lemma PreambleHeadsUpper(st: ClusterStatus)
    ensures var p := ReportPreamble(st);
      && |p| == 17
      && p[0][0] == '8' && p[1][0] == 'N' && p[2][0] == 'C' && p[3][0] == 'S' && p[3][6] == ' '
      && p[4][0] == 'A'
  {
    var p := ReportPreamble(st);
    assert p[1] == "Name: " + st.name;
    assert p[2] == "Cluster ID: " + "f832 (f832bbff-e28c-4656-83f0-075e91a7ab8f)";
    assert p[3] == "Server ID: " + "87f0 (87f0d686-8a8d-4585-9513-45efac449101)";
    assert p[4] == "Address: " + RenderAddress(st.address);
  }

  /** The first characters of the preamble's lines after the `Address:` line. */
  lemma PreambleHeadsLower(st: ClusterStatus)
    ensures var p := ReportPreamble(st);
      && |p| == 17
      && p[5][0] == 'S' && p[5][1] == 't' && p[6][0] == 'R' && p[7][0] == 'T'
      && p[8][0] == 'L' && p[9][0] == 'V' && p[10] == "" && p[11][0] == 'E'
      && p[12][0] == 'L' && p[13][0] == 'E' && p[14][0] == 'E' && p[15][0] == 'C'
      && p[16][0] == 'D'
  {
    var p := ReportPreamble(st);
    assert p[6] == "Role: " + RoleName(st.role);
    assert p[11] == "Election timer: " + ShowNat(st.electionTimer);
  }

  lemma ReportAddressOf(st: ClusterStatus)
    requires ValidStatus(st)
    ensures ReportAddress(RenderReport(st)) == Some(st.address)
  {
    var lines := RenderReport(st);
    ReportLines(st);
    PreambleHeadsUpper(st);
    PreambleHeadsLower(st);
    FirstField(lines, "Address", 4);
    assert lines[4][|"Address"| + 2..] == RenderAddress(st.address);
    ParseRenderAddress(st.address);
  }

  lemma ReportRoleOf(st: ClusterStatus)
    ensures ReportRole(RenderReport(st)) == Some(RoleName(st.role))
  {
    var lines := RenderReport(st);
    ReportLines(st);
    PreambleHeadsUpper(st);
    PreambleHeadsLower(st);
    FirstField(lines, "Role", 6);
    assert lines[6][|"Role"| + 2..] == RoleName(st.role);
  }

  lemma ReportTimerOf(st: ClusterStatus)
    ensures ReportElectionTimer(RenderReport(st)) == Some(st.electionTimer)
  {
    var lines := RenderReport(st);
    ReportLines(st);
    PreambleHeadsUpper(st);
    PreambleHeadsLower(st);
    FirstField(lines, "Election timer", 11);
    assert lines[11][|"Election timer"| + 2..] == ShowNat(st.electionTimer);
  }

  /** The `Servers:` table comes back from a rendered report, entry for entry. */
  lemma ReportServersRoundTrip(st: ClusterStatus)
    requires ValidStatus(st)
    ensures ReportServers(RenderReport(st)) == st.servers
  {
    var lines := RenderReport(st);
    ReportLines(st);
    PreambleHeadsUpper(st);
    PreambleHeadsLower(st);
    assert forall j :: 0 <= j < 17 ==> lines[j] != "Servers:" by {
      forall j | 0 <= j < 17 ensures lines[j] != "Servers:" {
        assert lines[j] == ReportPreamble(st)[j];
      }
    }
    SkipNonHeaders(lines, 17);
    assert lines[17..][0] == "Servers:" && lines[17..][1..] == lines[18..];
    ServersOfRendered(st.servers);
  }

  lemma NoBreakInAddress(a: Address)
    requires ValidAddress(a)
    ensures '\n' !in RenderAddress(a)
  {
    var s := RenderAddress(a);
    forall i | 0 <= i < |s| ensures s[i] != '\n' {
      if i < |a.proto| {
        assert s[i] == a.proto[i] && IsLower(a.proto[i]);
      } else if i == |a.proto| {
      } else if i < |a.proto| + 1 + |a.host| {
        assert s[i] == a.host[i - |a.proto| - 1] && IsHostChar(a.host[i - |a.proto| - 1]);
      } else if i == |a.proto| + 1 + |a.host| {
      } else {
        assert s[i] == a.port[i - |a.proto| - 2 - |a.host|] && IsDigit(a.port[i - |a.proto| - 2 - |a.host|]);
      }
    }
  }

  lemma NoBreakInServerLine(e: ServerEntry)
    requires ValidEntry(e)
    ensures '\n' !in RenderServerLine(e)
  {
    var w := EntryWords(e);
    NoSpaceInShortId(e.sid);
    NoBreakInAddress(e.address);
    if e.liveness.LastMsg? {
      NoSpaceInNat(e.liveness.ms);
    }
    assert forall i :: 0 <= i < |w| ==> '\n' !in w[i];
    NoBreakInJoin(w, ' ');
  }

  lemma {:induction false} NoBreakInJoin(w: seq<string>, sep: char)
    requires sep != '\n'
    requires forall i :: 0 <= i < |w| ==> '\n' !in w[i]
    ensures '\n' !in Join(w, sep)
    decreases |w|
  {
    if |w| > 1 {
      NoBreakInJoin(w[1..], sep);
    }
  }

  /** A field lookup returns the value of the first line carrying its key. */
  lemma FirstField(lines: seq<string>, key: string, k: nat)
    requires k < |lines| && key + ": " <= lines[k]
    requires |key| > 0
    requires forall j :: 0 <= j < k ==> |lines[j]| == 0 || lines[j][0] != key[0]
    ensures FieldValue(lines, key) == Some(lines[k][|key| + 2..])
  {
    var r := FieldValue(lines, key);
    var i :| 0 <= i < |lines| && lines[i] == key + ": " + r.value
             && forall j :: 0 <= j < i ==> !(key + ": " <= lines[j]);
    assert i == k;
    assert lines[k][|key| + 2..] == r.value;
  }

  /** Lines before the `Servers:` header do not belong to the table. */
  lemma {:induction false} SkipNonHeaders(lines: seq<string>, k: nat)
    requires k <= |lines|
    requires forall j :: 0 <= j < k ==> lines[j] != "Servers:"
    ensures ServerTable(lines) == ServerTable(lines[k..])
    decreases k
  {
    if k > 0 {
      SkipNonHeaders(lines[1..], k - 1);
      assert lines[1..][k - 1..] == lines[k..];
    }
  }
}
