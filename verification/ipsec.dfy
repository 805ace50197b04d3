/**
 * IPsec tunnel health: the tunnel names declared in the IPsec
 * configuration, the tunnels the `ipsec trafficstatus` output reports, the
 * check that every declared tunnel is up, and the probe loop's
 * consecutive-failure and consecutive-success counters that decide when
 * the node is tainted or untainted.
 */
module Ipsec {
  import opened Wrappers
  import opened Text

  // ---------------------------------------------------------------------
  // Configured tunnels

  const ConnPrefix: string := "conn "

  /** The longest prefix free of `\s` characters. */
  function NonSpaceRun(s: string): (r: string)
    ensures |r| <= |s| && r == s[..|r|]
    ensures forall i :: 0 <= i < |r| ==> !IsSpace(r[i])
    ensures |r| == |s| || IsSpace(s[|r|])
  {
    if |s| == 0 || IsSpace(s[0]) then []
    else
      var rest := NonSpaceRun(s[1..]);
      assert s == [s[0]] + s[1..];
      [s[0]] + rest
  }

  /** A tunnel name the configuration pattern can capture: non-empty, no `\s`, not starting with `%`. */
  predicate ValidTunnelName(name: string) {
    |name| > 0 && name[0] != '%' && forall i :: 0 <= i < |name| ==> !IsSpace(name[i])
  }

  /**
   * The tunnel a configuration line declares, for the pattern
   * `^conn ([^%\s]\S*)`: the line starts with `conn ` and a character
   * that is neither `%` nor `\s`, and the name is the longest `\S` run from
   * there on.
   */
  function ConnName(line: string): (r: Option<string>)
    ensures r.Some? <==> |line| > |ConnPrefix| && line[..|ConnPrefix|] == ConnPrefix
                         && !IsSpace(line[|ConnPrefix|]) && line[|ConnPrefix|] != '%'
    ensures r.Some? ==> ValidTunnelName(r.value)
                        && |ConnPrefix| + |r.value| <= |line|
                        && line[..|ConnPrefix| + |r.value|] == ConnPrefix + r.value
                        && (|line| == |ConnPrefix| + |r.value| || IsSpace(line[|ConnPrefix| + |r.value|]))
  {
    if |line| > |ConnPrefix| && line[..|ConnPrefix|] == ConnPrefix
       && !IsSpace(line[|ConnPrefix|]) && line[|ConnPrefix|] != '%'
    then
      var name := NonSpaceRun(line[|ConnPrefix|..]);
      assert line[..|ConnPrefix| + |name|] == line[..|ConnPrefix|] + line[|ConnPrefix|..][..|name|];
      Some(name)
    else None
  }

  /** A declaration line written as `conn <name>` followed by nothing or by whitespace yields that name. */
  lemma ConnNameOf(name: string, rest: string)
    requires ValidTunnelName(name)
    requires |rest| == 0 || IsSpace(rest[0])
    ensures ConnName(ConnPrefix + name + rest) == Some(name)
  {
    var line := ConnPrefix + name + rest;
    assert line[..|ConnPrefix|] == ConnPrefix;
    assert line[|ConnPrefix|] == name[0];
    var got := ConnName(line).value;
    assert line[|ConnPrefix|..] == name + rest;
    NonSpaceRunOf(name, rest);
  }

  lemma {:induction false} NonSpaceRunOf(name: string, rest: string)
    requires forall i :: 0 <= i < |name| ==> !IsSpace(name[i])
    requires |rest| == 0 || IsSpace(rest[0])
    ensures NonSpaceRun(name + rest) == name
    decreases |name|
  {
    if |name| > 0 {
      assert (name + rest)[1..] == name[1..] + rest;
      NonSpaceRunOf(name[1..], rest);
      assert [name[0]] + name[1..] == name;
    } else {
      assert name + rest == rest;
    }
  }

  /** The `%default` section declares no tunnel. */
  lemma DefaultSectionIgnored(rest: string)
    ensures ConnName(ConnPrefix + "%" + rest) == None
  {
    var line := ConnPrefix + "%" + rest;
    assert line[|ConnPrefix|] == '%';
  }

  /** The declared tunnel names, in configuration order. */
  function Tunnels(lines: seq<string>): (r: seq<string>)
    ensures |r| <= |lines|
    ensures forall i :: 0 <= i < |r| ==> ValidTunnelName(r[i])
  {
    if |lines| == 0 then []
    else
      var rest := Tunnels(lines[1..]);
      match ConnName(lines[0])
      case Some(name) => [name] + rest
      case None => rest
  }

  /** Exactly the names of the declaring lines are collected. */
  lemma {:induction false} TunnelsExact(lines: seq<string>)
    ensures forall t :: t in Tunnels(lines) <==> exists i :: 0 <= i < |lines| && ConnName(lines[i]) == Some(t)
    decreases |lines|
  {
    if |lines| > 0 {
      TunnelsExact(lines[1..]);
      assert forall i :: 1 <= i < |lines| ==> lines[i] == lines[1..][i - 1];
    }
  }

  /** Line order is kept: the tunnels of a concatenation are the tunnels of each part, in turn. */
  lemma {:induction false} TunnelsAppend(a: seq<string>, b: seq<string>)
    ensures Tunnels(a + b) == Tunnels(a) + Tunnels(b)
    decreases |a|
  {
    if |a| == 0 {
      assert a + b == b;
    } else {
      assert (a + b)[0] == a[0] && (a + b)[1..] == a[1..] + b;
      TunnelsAppend(a[1..], b);
    }
  }

  // ---------------------------------------------------------------------
  // Traffic status

  /** The characters trimmed off both ends of a tunnel name in the status output. */
  const NameCut: set<char> := {'"', ' '}

  /** One line of `ipsec trafficstatus`: a tunnel and its connection info, or an invalid line. */
  datatype StatusLine = Entry(name: string, info: string) | Invalid(line: string)

  /** A line with exactly one `:`, and a `,` after it. */
  predicate WellFormedStatus(line: string) {
    exists k :: 0 <= k < |line| && line[k] == ':' && ':' !in line[..k] && ':' !in line[k + 1..] && ',' in line[k + 1..]
  }

  /**
   * A status line: split on `:` it must give exactly two parts, and the
   * second split on `,` at least two fields; the tunnel name is the first
   * field trimmed of `"` and spaces, and the info is the whole second part.
   */
  function ParseStatusLine(line: string): (r: StatusLine)
    ensures r.Entry? <==> WellFormedStatus(line)
    ensures r.Entry? ==> exists k :: 0 <= k < |line| && line[k] == ':' && r.info == line[k + 1..]
    ensures r.Entry? ==> ',' in r.info && ':' !in r.info
    ensures r.Entry? ==> r.name == Trim(Split(r.info, ',')[0], NameCut)
    ensures r.Invalid? ==> r.line == line
  {
    var parts := Split(line, ':');
    StatusShape(line);
    if |parts| != 2 then Invalid(line)
    else
      var fields := Split(parts[1], ',');
      SplitMany(parts[1], ',');
      if |fields| < 2 then Invalid(line)
      else Entry(Trim(fields[0], NameCut), parts[1])
  }

  /** A line splits on `:` into exactly two parts when, and only when, it holds one `:`; the second part is what follows it. */
  lemma StatusShape(line: string)
    ensures var parts := Split(line, ':');
            && (|parts| == 2 ==> exists k :: 0 <= k < |line| && line[k] == ':' && ':' !in line[..k]
                                             && parts[1] == line[k + 1..] && ':' !in line[k + 1..])
            && (WellFormedStatus(line) ==> |parts| == 2 && ',' in parts[1])
  {
    var parts := Split(line, ':');
    if |parts| == 2 {
      TwoParts(line, parts);
    }
    if WellFormedStatus(line) {
      var k :| 0 <= k < |line| && line[k] == ':' && ':' !in line[..k] && ':' !in line[k + 1..] && ',' in line[k + 1..];
      SplitAround(line, k);
    }
  }

  /** A line holding a single `:` splits into what precedes it and what follows it. */
  lemma SplitAround(line: string, k: nat)
    requires k < |line| && line[k] == ':' && ':' !in line[..k] && ':' !in line[k + 1..]
    ensures Split(line, ':') == [line[..k], line[k + 1..]]
  {
    assert line == line[..k] + [':'] + line[k + 1..];
    SplitPair(line[..k], ':', line[k + 1..]);
  }

  /** Two pieces of a split sit on either side of the one separator. */
  lemma TwoParts(line: string, parts: seq<string>)
    requires parts == Split(line, ':') && |parts| == 2
    ensures var k := |parts[0]|;
            k < |line| && line[k] == ':' && line[..k] == parts[0] && line[k + 1..] == parts[1]
  {
    assert parts[1..] == [parts[1]];
    assert Join(parts, ':') == parts[0] + [':'] + Join(parts[1..], ':');
    assert line == parts[0] + [':'] + parts[1];
  }

  /** The line `ipsec trafficstatus` prints for an established tunnel is read back as that tunnel. */
  lemma StatusLineOf(prefix: string, name: string, rest: string)
    requires ':' !in prefix && ':' !in name && ':' !in rest
    requires ',' !in name && |name| > 0 && name[0] !in NameCut && name[|name| - 1] !in NameCut
    ensures var info := " \"" + name + "\"," + rest;
            ParseStatusLine(prefix + ":" + info) == Entry(name, info)
  {
    var head := " \"" + name + "\"";
    var info := head + "," + rest;
    assert info == " \"" + name + "\"," + rest;
    assert ':' !in head && ':' !in info;
    assert ',' !in head;
    SplitPair(prefix, ':', info);
    assert prefix + ":" + info == prefix + [':'] + info;
    SplitCons(head, ',', rest);
    assert info == head + [','] + rest;
    HeadTrimmed(name);
  }

  /** A quoted name with a leading space is trimmed back to the name. */
  lemma HeadTrimmed(name: string)
    requires |name| > 0 && name[0] !in NameCut && name[|name| - 1] !in NameCut
    ensures Trim(" \"" + name + "\"", NameCut) == name
  {
    TrimLeftPadding(" \"", name + "\"", NameCut);
    assert " \"" + name + "\"" == " \"" + (name + "\"");
    TrimRightPadding(name, "\"", NameCut);
  }

  /** The tunnels the status output reports, with their info, and the lines that could not be read. */
  datatype Status = Status(tunnels: map<string, string>, invalid: seq<string>)

  /** Every line of the status output, read on its own. */
  function ParseAll(lines: seq<string>): (r: seq<StatusLine>)
    ensures |r| == |lines|
    ensures forall i :: 0 <= i < |lines| ==> r[i] == ParseStatusLine(lines[i])
  {
    if |lines| == 0 then [] else [ParseStatusLine(lines[0])] + ParseAll(lines[1..])
  }

  /**
   * Folds the read lines in order: a later line for the same tunnel
   * overrides an earlier one, and an invalid line is collected without
   * stopping the reading.
   */
  function Collect(parsed: seq<StatusLine>): (r: Status)
    ensures |r.invalid| <= |parsed|
    decreases |parsed|
  {
    if |parsed| == 0 then Status(map[], [])
    else
      var r := Collect(parsed[..|parsed| - 1]);
      match parsed[|parsed| - 1]
      case Entry(name, info) => Status(r.tunnels[name := info], r.invalid)
      case Invalid(line) => Status(r.tunnels, r.invalid + [line])
  }

  /** The status output read line by line. */
  function TrafficStatus(lines: seq<string>): Status {
    Collect(ParseAll(lines))
  }

  /** The read line reports tunnel `name`. */
  predicate Reports(l: StatusLine, name: string) {
    l.Entry? && l.name == name
  }

  /** Exactly the reported tunnels are kept. */
  lemma {:induction false} CollectTunnels(parsed: seq<StatusLine>)
    ensures forall n :: n in Collect(parsed).tunnels <==> exists i :: 0 <= i < |parsed| && Reports(parsed[i], n)
    decreases |parsed|
  {
    if |parsed| > 0 {
      var front := parsed[..|parsed| - 1];
      CollectTunnels(front);
      assert forall i :: 0 <= i < |front| ==> front[i] == parsed[i];
    }
  }

  /** Exactly the invalid lines are collected, in order. */
  lemma {:induction false} CollectInvalid(parsed: seq<StatusLine>)
    ensures forall l :: l in Collect(parsed).invalid <==> Invalid(l) in parsed
    decreases |parsed|
  {
    if |parsed| > 0 {
      var front := parsed[..|parsed| - 1];
      CollectInvalid(front);
      assert parsed == front + [parsed[|parsed| - 1]];
      assert forall x :: x in parsed <==> x in front || x == parsed[|parsed| - 1];
    }
  }

  /** The info kept for a tunnel is that of the last line reporting it. */
  lemma {:induction false} LastLineWins(parsed: seq<StatusLine>, n: string)
    requires n in Collect(parsed).tunnels
    ensures exists i :: 0 <= i < |parsed| && Reports(parsed[i], n)
                        && parsed[i].info == Collect(parsed).tunnels[n]
                        && forall j :: i < j < |parsed| ==> !Reports(parsed[j], n)
    decreases |parsed|
  {
    var last := |parsed| - 1;
    var front := parsed[..last];
    if Reports(parsed[last], n) {
      assert Collect(parsed).tunnels[n] == parsed[last].info;
    } else {
      assert n in Collect(front).tunnels && Collect(parsed).tunnels[n] == Collect(front).tunnels[n];
      LastLineWins(front, n);
      var i :| 0 <= i < |front| && Reports(front[i], n)
                && front[i].info == Collect(front).tunnels[n]
                && forall j :: i < j < |front| ==> !Reports(front[j], n);
      assert front[i] == parsed[i];
      assert forall j :: i < j < last ==> front[j] == parsed[j];
    }
  }

  /**
   * Over the status output: a tunnel is kept exactly when some line
   * reports it, and a line is collected as invalid exactly when it does not
   * have the expected shape.
   */
  lemma TrafficStatusExact(lines: seq<string>)
    ensures forall n :: n in TrafficStatus(lines).tunnels <==>
              exists i :: 0 <= i < |lines| && Reports(ParseStatusLine(lines[i]), n)
    ensures forall l :: l in TrafficStatus(lines).invalid <==> l in lines && !WellFormedStatus(l)
  {
    var parsed := ParseAll(lines);
    CollectTunnels(parsed);
    CollectInvalid(parsed);
    forall l
      ensures Invalid(l) in parsed <==> l in lines && !WellFormedStatus(l)
    {
      if Invalid(l) in parsed {
        var i :| 0 <= i < |parsed| && parsed[i] == Invalid(l);
        assert lines[i] == l;
      }
      if l in lines && !WellFormedStatus(l) {
        var i :| 0 <= i < |lines| && lines[i] == l;
        assert parsed[i] == Invalid(l);
      }
    }
  }

  // ---------------------------------------------------------------------
  // The tunnel check

  /** The result of one check of the tunnels. */
  datatype TunnelCheck =
    | Up
    | ConfigUnreadable
    | StatusCommandFailed
    | InvalidLines(lines: seq<string>)
    | NotEstablished(tunnels: seq<string>)

  /**
   * The configured tunnels the status does not report, each as often as it
   * is configured.
   */
  function Missing(tunnels: seq<string>, up: map<string, string>): (r: seq<string>)
    ensures forall t :: t in r <==> t in tunnels && t !in up
    ensures forall t :: t !in up ==> multiset(r)[t] == multiset(tunnels)[t]
    ensures |r| <= |tunnels|
  {
    if |tunnels| == 0 then []
    else
      var rest := Missing(tunnels[1..], up);
      assert forall t :: t in tunnels <==> t == tunnels[0] || t in tunnels[1..];
      assert tunnels == [tunnels[0]] + tunnels[1..];
      assert multiset(tunnels) == multiset([tunnels[0]]) + multiset(tunnels[1..]);
      if tunnels[0] in up then rest else [tunnels[0]] + rest
  }

  /**
   * Reads the configured tunnels (None: the file could not be read) and
   * the status output (None: the command failed); invalid status lines are
   * reported before anything else, then every configured tunnel the status
   * does not report.
   */
  function CheckTunnels(config: Option<seq<string>>, status: Option<seq<string>>): (r: TunnelCheck)
    ensures config.None? <==> r == ConfigUnreadable
    ensures config.Some? && status.None? <==> r == StatusCommandFailed
    ensures r.InvalidLines? <==> config.Some? && status.Some? && TrafficStatus(status.value).invalid != []
    ensures r.InvalidLines? ==> r.lines == TrafficStatus(status.value).invalid
    ensures r.Up? <==> config.Some? && status.Some? && TrafficStatus(status.value).invalid == []
                       && forall t :: t in Tunnels(config.value) ==> t in TrafficStatus(status.value).tunnels
    ensures r.NotEstablished? ==>
              && |r.tunnels| > 0
              && forall t :: t in r.tunnels <==> t in Tunnels(config.value) && t !in TrafficStatus(status.value).tunnels
  {
    match config
    case None => ConfigUnreadable
    case Some(lines) =>
      match status
      case None => StatusCommandFailed
      case Some(out) =>
        var st := TrafficStatus(out);
        if st.invalid != [] then InvalidLines(st.invalid)
        else
          var missing := Missing(Tunnels(lines), st.tunnels);
          if missing == [] then Up
          else
            assert missing[0] in missing;
            NotEstablished(missing)
  }

  // ---------------------------------------------------------------------
  // The probe loop

  const TwoTo31: int := 0x8000_0000
  const TwoTo32: int := 0x1_0000_0000

  predicate IsInt32(x: int) {
    -TwoTo31 <= x < TwoTo31
  }

  /** Two's-complement wrap-around into 32 bits, as Go's `int32` arithmetic does. */
  function Wrap32(n: int): (r: int)
    ensures IsInt32(r)
    ensures IsInt32(n) ==> r == n
    ensures (n - r) % TwoTo32 == 0
  {
    (n + TwoTo31) % TwoTo32 - TwoTo31
  }

  lemma WrapSucc(n: int)
    ensures Wrap32(Wrap32(n) + 1) == Wrap32(n + 1)
  {
    var q := (n + TwoTo31) / TwoTo32;
    assert Wrap32(n) == n - q * TwoTo32;
    assert (Wrap32(n) + 1 + TwoTo31) == (n + 1 + TwoTo31) - q * TwoTo32;
  }

  /** The probe's thresholds (`int32` in the source). */
  datatype Probe = Probe(failureThreshold: int, successThreshold: int)

  /** The consecutive failure and success counters (`int32` in the source). */
  datatype Counters = Counters(failures: int, successes: int)

  /** One probe: a failure counts up failures and clears successes, a success the reverse. */
  function ProbeStep(c: Counters, ok: bool): (r: Counters)
    requires IsInt32(c.failures) && IsInt32(c.successes)
    ensures IsInt32(r.failures) && IsInt32(r.successes)
    ensures ok ==> r.failures == 0 && r.successes == Wrap32(c.successes + 1)
    ensures !ok ==> r.successes == 0 && r.failures == Wrap32(c.failures + 1)
  {
    if ok then Counters(0, Wrap32(c.successes + 1))
    else Counters(Wrap32(c.failures + 1), 0)
  }

  /** The counters after a run of probe outcomes, starting from zero. */
  function Counts(outcomes: seq<bool>): (r: Counters)
    ensures IsInt32(r.failures) && IsInt32(r.successes)
    decreases |outcomes|
  {
    if |outcomes| == 0 then Counters(0, 0)
    else ProbeStep(Counts(outcomes[..|outcomes| - 1]), outcomes[|outcomes| - 1])
  }

  /** How many of the last outcomes, counted back from the end, equal `v`. */
  function Trailing(outcomes: seq<bool>, v: bool): (n: nat)
    ensures n <= |outcomes|
    ensures forall i :: |outcomes| - n <= i < |outcomes| ==> outcomes[i] == v
    ensures n < |outcomes| ==> outcomes[|outcomes| - 1 - n] != v
    decreases |outcomes|
  {
    if |outcomes| == 0 || outcomes[|outcomes| - 1] != v then 0
    else
      var front := outcomes[..|outcomes| - 1];
      assert forall i :: 0 <= i < |front| ==> front[i] == outcomes[i];
      Trailing(front, v) + 1
  }

  /** The counters are the lengths of the trailing runs of failures and of successes, wrapped to 32 bits. */
  lemma {:induction false} CountsTrailing(outcomes: seq<bool>)
    ensures Counts(outcomes) == Counters(Wrap32(Trailing(outcomes, false)), Wrap32(Trailing(outcomes, true)))
    decreases |outcomes|
  {
    if |outcomes| > 0 {
      var front := outcomes[..|outcomes| - 1];
      CountsTrailing(front);
      if outcomes[|outcomes| - 1] {
        WrapSucc(Trailing(front, true));
      } else {
        WrapSucc(Trailing(front, false));
      }
    }
  }

  /** At most one counter is non-zero after any run of probes. */
  lemma OneCounterAtATime(outcomes: seq<bool>)
    ensures Counts(outcomes).failures == 0 || Counts(outcomes).successes == 0
  {
    CountsTrailing(outcomes);
  }

  /** What the loop asks of the node's taint. */
  datatype TaintAction = Taint(node: string) | Untaint(node: string)

  /** The taint call: a no-op for an empty node name. */
  function TaintNode(node: string, add: bool): (r: Option<TaintAction>)
    ensures r.None? <==> node == ""
    ensures r.Some? ==> r.value.node == node && (r.value.Taint? <==> add)
  {
    if node == "" then None
    else if add then Some(Taint(node))
    else Some(Untaint(node))
  }

  function Actions(a: Option<TaintAction>): seq<TaintAction> {
    if a.Some? then [a.value] else []
  }

  /**
   * After a probe: taint when the failures reached the failure threshold,
   * then untaint when the successes reached the success threshold.
   */
  function Decide(c: Counters, probe: Probe, node: string): (r: seq<TaintAction>)
    ensures Taint(node) in r <==> node != "" && c.failures >= probe.failureThreshold
    ensures Untaint(node) in r <==> node != "" && c.successes >= probe.successThreshold
    ensures forall a :: a in r ==> a.node == node && a.node != ""
  {
    Actions(if c.failures >= probe.failureThreshold then TaintNode(node, true) else None)
    + Actions(if c.successes >= probe.successThreshold then TaintNode(node, false) else None)
  }

  /** The taint requests of the probe loop after each probe of a run, in order. */
  function Monitor(probe: Probe, node: string, outcomes: seq<bool>): (r: seq<TaintAction>)
    ensures node == "" ==> r == []
    ensures forall a :: a in r ==> a.node == node
    decreases |outcomes|
  {
    if |outcomes| == 0 then []
    else Monitor(probe, node, outcomes[..|outcomes| - 1]) + Decide(Counts(outcomes), probe, node)
  }

  /** The failure counter after a run of probes. */
  function FailureCount(outcomes: seq<bool>): int {
    Counts(outcomes).failures
  }

  /** After some probe of the run, the counter `count` had reached the threshold. */
  predicate ReachedOn(outcomes: seq<bool>, count: seq<bool> -> int, threshold: int) {
    exists i :: 0 < i <= |outcomes| && count(outcomes[..i]) >= threshold
  }

  /** After some probe of the run, the failure counter had reached the threshold. */
  predicate FailuresReached(outcomes: seq<bool>, threshold: int) {
    ReachedOn(outcomes, FailureCount, threshold)
  }

  /**
   * Over a run of probes, a named node is tainted at some point exactly
   * when the failure counter reached the threshold after some probe.
   */
  lemma {:induction false} MonitorTaints(probe: Probe, node: string, outcomes: seq<bool>)
    ensures Taint(node) in Monitor(probe, node, outcomes) <==>
              node != "" && FailuresReached(outcomes, probe.failureThreshold)
    decreases |outcomes|
  {
    if |outcomes| > 0 {
      var prefix := outcomes[..|outcomes| - 1];
      MonitorTaints(probe, node, prefix);
      MonitorTaintStep(probe, node, outcomes);
      ReachedOnStep(outcomes, FailureCount, probe.failureThreshold);
    }
  }

  /** The last probe of a run taints exactly when the earlier ones did or its own counters reach the threshold. */
  lemma MonitorTaintStep(probe: Probe, node: string, outcomes: seq<bool>)
    requires |outcomes| > 0
    ensures Taint(node) in Monitor(probe, node, outcomes) <==>
              Taint(node) in Monitor(probe, node, outcomes[..|outcomes| - 1])
              || (node != "" && Counts(outcomes).failures >= probe.failureThreshold)
  {
    var before := Monitor(probe, node, outcomes[..|outcomes| - 1]);
    var now := Decide(Counts(outcomes), probe, node);
    assert Monitor(probe, node, outcomes) == before + now;
    assert Taint(node) in before + now <==> Taint(node) in before || Taint(node) in now;
  }

  /** The threshold was reached during a run exactly when it was during the run without its last probe, or after that probe. */
  lemma ReachedOnStep(outcomes: seq<bool>, count: seq<bool> -> int, threshold: int)
    requires |outcomes| > 0
    ensures ReachedOn(outcomes, count, threshold) <==>
              ReachedOn(outcomes[..|outcomes| - 1], count, threshold) || count(outcomes) >= threshold
  {
    var n := |outcomes|;
    var prefix := outcomes[..n - 1];
    if ReachedOn(outcomes, count, threshold) {
      var i :| 0 < i <= n && count(outcomes[..i]) >= threshold;
      if i < n {
        assert prefix[..i] == outcomes[..i];
      } else {
        assert outcomes[..i] == outcomes;
      }
    }
    if ReachedOn(prefix, count, threshold) {
      var i :| 0 < i <= |prefix| && count(prefix[..i]) >= threshold;
      assert prefix[..i] == outcomes[..i];
    }
    if count(outcomes) >= threshold {
      assert outcomes[..n] == outcomes;
    }
  }

  /** The success counter after a run of probes. */
  function SuccessCount(outcomes: seq<bool>): int {
    Counts(outcomes).successes
  }

  /** After some probe of the run, the success counter had reached the threshold. */
  predicate SuccessesReached(outcomes: seq<bool>, threshold: int) {
    ReachedOn(outcomes, SuccessCount, threshold)
  }

  /**
   * Over a run of probes, the taint is removed from a named node at some
   * point exactly when the success counter reached the threshold after
   * some probe.
   */
  lemma {:induction false} MonitorUntaints(probe: Probe, node: string, outcomes: seq<bool>)
    ensures Untaint(node) in Monitor(probe, node, outcomes) <==>
              node != "" && SuccessesReached(outcomes, probe.successThreshold)
    decreases |outcomes|
  {
    if |outcomes| > 0 {
      var prefix := outcomes[..|outcomes| - 1];
      MonitorUntaints(probe, node, prefix);
      MonitorUntaintStep(probe, node, outcomes);
      ReachedOnStep(outcomes, SuccessCount, probe.successThreshold);
    }
  }

  /** The last probe of a run untaints exactly when the earlier ones did or its own counters reach the threshold. */
  lemma MonitorUntaintStep(probe: Probe, node: string, outcomes: seq<bool>)
    requires |outcomes| > 0
    ensures Untaint(node) in Monitor(probe, node, outcomes) <==>
              Untaint(node) in Monitor(probe, node, outcomes[..|outcomes| - 1])
              || (node != "" && Counts(outcomes).successes >= probe.successThreshold)
  {
    var before := Monitor(probe, node, outcomes[..|outcomes| - 1]);
    var now := Decide(Counts(outcomes), probe, node);
    assert Monitor(probe, node, outcomes) == before + now;
    assert Untaint(node) in before + now <==> Untaint(node) in before || Untaint(node) in now;
  }

  /** With positive thresholds the loop makes at most one taint request per probe. */
  lemma {:induction false} MonitorAtMostOnePerProbe(probe: Probe, node: string, outcomes: seq<bool>)
    requires probe.failureThreshold > 0 && probe.successThreshold > 0
    ensures |Monitor(probe, node, outcomes)| <= |outcomes|
    decreases |outcomes|
  {
    if |outcomes| > 0 {
      MonitorAtMostOnePerProbe(probe, node, outcomes[..|outcomes| - 1]);
      OneCounterAtATime(outcomes);
    }
  }

  /**
   * Before the failure counter wraps, the node is tainted after a probe
   * exactly when the trailing run of failures has reached the failure
   * threshold.
   */
  lemma TaintWhenFailuresReachThreshold(probe: Probe, node: string, outcomes: seq<bool>)
    requires node != ""
    requires Trailing(outcomes, false) < TwoTo31
    ensures Taint(node) in Decide(Counts(outcomes), probe, node) <==> Trailing(outcomes, false) >= probe.failureThreshold
  {
    CountsTrailing(outcomes);
  }

  /**
   * Before the success counter wraps, the taint is removed after a probe
   * exactly when the trailing run of successes has reached the success
   * threshold.
   */
  lemma UntaintWhenSuccessesReachThreshold(probe: Probe, node: string, outcomes: seq<bool>)
    requires node != ""
    requires Trailing(outcomes, true) < TwoTo31
    ensures Untaint(node) in Decide(Counts(outcomes), probe, node) <==> Trailing(outcomes, true) >= probe.successThreshold
  {
    CountsTrailing(outcomes);
  }

  /** With positive thresholds a probe never both taints and untaints. */
  lemma NeverBoth(probe: Probe, node: string, outcomes: seq<bool>)
    requires probe.failureThreshold > 0 && probe.successThreshold > 0
    ensures !(Taint(node) in Decide(Counts(outcomes), probe, node) && Untaint(node) in Decide(Counts(outcomes), probe, node))
  {
    OneCounterAtATime(outcomes);
  }
}
