/**
 * The IP rule manager: a list of managed policy-routing rules, some marked
 * for deletion, plus a set of owned priorities, reconciled against the
 * rules the host currently lists. Every entry point is a pure function
 * from the controller and the host to the host operations issued, the
 * operations that failed and the new controller.
 */
module IpRuleManager {
  import opened Wrappers

  /**
   * A policy-routing rule. `key` stands for the rule's textual rendering,
   * which together with the address family is what two rules are compared
   * by; `detail` stands for the attributes the rendering leaves out.
   */
  datatype Rule = Rule(family: int, priority: int, key: string, detail: string)

  /** Two rules are equal when their families and renderings are. */
  predicate SameRule(a: Rule, b: Rule) {
    a.family == b.family && a.key == b.key
  }

  /** A host rule stands for a candidate when it sits at its priority and is equal to it. */
  predicate Matches(f: Rule, c: Rule) {
    f.priority == c.priority && SameRule(f, c)
  }

  /** A managed rule, possibly marked for deletion. */
  datatype Managed = Managed(rule: Rule, delete: bool)

  /** The manager's state: the managed rules in insertion order and the owned priorities. */
  datatype Controller = Controller(rules: seq<Managed>, owned: set<int>)

  /** An operation on the host's rule table. */
  datatype HostOp = RuleAdd(rule: Rule) | RuleDel(rule: Rule)

  /**
   * The host as the manager sees it: the rule listing (None when listing
   * fails) and the operations the host refuses.
   */
  datatype Host = Host(listing: Option<seq<Rule>>, failing: set<HostOp>)

  /**
   * What one entry point did: the new controller, the operations issued
   * in order, the refused ones in order, and whether listing failed.
   */
  datatype Outcome = Outcome(ctl: Controller, ops: seq<HostOp>, failed: seq<HostOp>, listFailed: bool)

  /** No two managed rules are equal. */
  predicate NoDup(rules: seq<Managed>) {
    forall i, j :: 0 <= i < |rules| && 0 <= j < |rules| && i != j ==> !SameRule(rules[i].rule, rules[j].rule)
  }

  /** The host never lists two different rules that stand for the same candidate. */
  predicate HostUnique(found: seq<Rule>) {
    forall i, j :: 0 <= i < |found| && 0 <= j < |found| && Matches(found[i], found[j]) ==> found[i] == found[j]
  }

  // ---------------------------------------------------------------------
  // Lookup

  /** The first host rule that stands for the candidate, if any. */
  function FindRule(found: seq<Rule>, c: Rule): (r: Option<Rule>)
    ensures r.Some? ==> r.value in found && Matches(r.value, c)
    ensures r.None? <==> forall i :: 0 <= i < |found| ==> !Matches(found[i], c)
    ensures r.Some? ==> exists i :: 0 <= i < |found| && found[i] == r.value
                                    && forall j :: 0 <= j < i ==> !Matches(found[j], c)
  {
    if |found| == 0 then None
    else if Matches(found[0], c) then Some(found[0])
    else
      var r := FindRule(found[1..], c);
      if r.Some? then
        var i :| 0 <= i < |found[1..]| && found[1..][i] == r.value
                 && forall j :: 0 <= j < i ==> !Matches(found[1..][j], c);
        assert found[i + 1] == r.value;
        r
      else r
  }

  /** Some managed rule at the host rule's priority is equal to it. */
  predicate MatchedBy(rules: seq<Managed>, f: Rule) {
    exists i :: 0 <= i < |rules| && Matches(f, rules[i].rule)
  }

  /** The refused operations among `ops`, in order. */
  function FailedOps(ops: seq<HostOp>, failing: set<HostOp>): (r: seq<HostOp>)
    ensures forall op :: op in r <==> op in ops && op in failing
    ensures |r| <= |ops|
  {
    if |ops| == 0 then []
    else
      var rest := FailedOps(ops[1..], failing);
      assert forall op :: op in ops <==> op == ops[0] || op in ops[1..];
      if ops[0] in failing then [ops[0]] + rest else rest
  }

  lemma {:induction false} FailedOpsAppend(a: seq<HostOp>, b: seq<HostOp>, failing: set<HostOp>)
    ensures FailedOps(a + b, failing) == FailedOps(a, failing) + FailedOps(b, failing)
    decreases |a|
  {
    if |a| > 0 {
      assert (a + b)[1..] == a[1..] + b;
      FailedOpsAppend(a[1..], b, failing);
    } else {
      assert a + b == b;
    }
  }

  // ---------------------------------------------------------------------
  // Reconciliation

  /** A managed rule stays managed: it is wanted, or its deletion was refused. */
  predicate Kept(m: Managed, found: seq<Rule>, failing: set<HostOp>) {
    !m.delete || (FindRule(found, m.rule).Some? && RuleDel(FindRule(found, m.rule).value) in failing)
  }

  /** The result of the pass over the managed rules. */
  datatype Pass = Pass(keep: seq<Managed>, ops: seq<HostOp>, failed: seq<HostOp>)

  /**
   * The pass over the managed rules: a marked rule is deleted when the
   * host lists it and stays managed only if that deletion is refused; a
   * wanted rule always stays and is added when the host does not list it.
   * A refusal does not stop the pass.
   */
  function KeepPass(rules: seq<Managed>, found: seq<Rule>, failing: set<HostOp>): (r: Pass)
    ensures r.failed == FailedOps(r.ops, failing)
    ensures |r.keep| <= |rules| && |r.ops| <= |rules|
    ensures forall m :: m in r.keep <==> m in rules && Kept(m, found, failing)
  {
    if |rules| == 0 then Pass([], [], [])
    else
      var m := rules[0];
      var rest := KeepPass(rules[1..], found, failing);
      assert forall x :: x in rules <==> x == m || x in rules[1..];
      if m.delete then
        match FindRule(found, m.rule)
        case None => rest
        case Some(f) =>
          if RuleDel(f) in failing then Pass([m] + rest.keep, [RuleDel(f)] + rest.ops, [RuleDel(f)] + rest.failed)
          else Pass(rest.keep, [RuleDel(f)] + rest.ops, rest.failed)
      else if FindRule(found, m.rule).None? then
        if RuleAdd(m.rule) in failing then Pass([m] + rest.keep, [RuleAdd(m.rule)] + rest.ops, [RuleAdd(m.rule)] + rest.failed)
        else Pass([m] + rest.keep, [RuleAdd(m.rule)] + rest.ops, rest.failed)
      else Pass([m] + rest.keep, rest.ops, rest.failed)
  }

  /**
   * The pass issues an add exactly for each wanted rule the host does not
   * list, and a delete exactly for the listed rule standing for each marked
   * rule.
   */
  lemma {:induction false} KeepPassOps(rules: seq<Managed>, found: seq<Rule>, failing: set<HostOp>)
    ensures forall x :: RuleAdd(x) in KeepPass(rules, found, failing).ops <==>
              exists m :: m in rules && !m.delete && FindRule(found, m.rule).None? && m.rule == x
    ensures forall x :: RuleDel(x) in KeepPass(rules, found, failing).ops <==>
              exists m :: m in rules && m.delete && FindRule(found, m.rule) == Some(x)
    decreases |rules|
  {
    if |rules| > 0 {
      var m := rules[0];
      var rest := KeepPass(rules[1..], found, failing).ops;
      KeepPassOps(rules[1..], found, failing);
      KeepPassStep(rules, found, failing);
      assert forall x :: x in rules <==> x == m || x in rules[1..];
      forall x
        ensures RuleAdd(x) in KeepPass(rules, found, failing).ops <==>
                  exists m :: m in rules && !m.delete && FindRule(found, m.rule).None? && m.rule == x
      {
        assert RuleAdd(x) in RuleOps(m, found) + rest <==> RuleAdd(x) in RuleOps(m, found) || RuleAdd(x) in rest;
      }
      forall x
        ensures RuleDel(x) in KeepPass(rules, found, failing).ops <==>
                  exists m :: m in rules && m.delete && FindRule(found, m.rule) == Some(x)
      {
        assert RuleDel(x) in RuleOps(m, found) + rest <==> RuleDel(x) in RuleOps(m, found) || RuleDel(x) in rest;
      }
    }
  }

  /** The operations the pass issues for one managed rule. */
  function RuleOps(m: Managed, found: seq<Rule>): (ops: seq<HostOp>)
    ensures forall x :: RuleAdd(x) in ops <==> !m.delete && FindRule(found, m.rule).None? && m.rule == x
    ensures forall x :: RuleDel(x) in ops <==> m.delete && FindRule(found, m.rule) == Some(x)
  {
    if m.delete then
      match FindRule(found, m.rule)
      case None => []
      case Some(f) => [RuleDel(f)]
    else if FindRule(found, m.rule).None? then [RuleAdd(m.rule)]
    else []
  }

  /** The pass issues the first rule's operations ahead of the rest's. */
  lemma KeepPassStep(rules: seq<Managed>, found: seq<Rule>, failing: set<HostOp>)
    requires |rules| > 0
    ensures KeepPass(rules, found, failing).ops == RuleOps(rules[0], found) + KeepPass(rules[1..], found, failing).ops
  {
  }

  /** A managed list without duplicates keeps none after the pass. */
  lemma {:induction false} KeepPassNoDup(rules: seq<Managed>, found: seq<Rule>, failing: set<HostOp>)
    requires NoDup(rules)
    ensures NoDup(KeepPass(rules, found, failing).keep)
    decreases |rules|
  {
    if |rules| > 0 {
      var rest := rules[1..];
      NoDupTail(rules);
      KeepPassNoDup(rest, found, failing);
      var k := KeepPass(rest, found, failing).keep;
      forall x | x in k
        ensures !SameRule(rules[0].rule, x.rule)
      {
        var j :| 0 <= j < |rest| && rest[j] == x;
        assert rules[j + 1] == x;
      }
      KeepPassKeepStep(rules, found, failing);
      if KeepPass(rules, found, failing).keep != k {
        NoDupCons(rules[0], k);
      }
    }
  }

  /** Dropping the first managed rule keeps the list free of equal rules. */
  lemma NoDupTail(rules: seq<Managed>)
    requires |rules| > 0 && NoDup(rules)
    ensures NoDup(rules[1..])
  {
    var rest := rules[1..];
    forall i, j | 0 <= i < |rest| && 0 <= j < |rest| && i != j
      ensures !SameRule(rest[i].rule, rest[j].rule)
    {
      assert rest[i] == rules[i + 1] && rest[j] == rules[j + 1];
    }
  }

  /** A rule equal to none of a duplicate-free list can head it. */
  lemma NoDupCons(m: Managed, k: seq<Managed>)
    requires NoDup(k)
    requires forall x :: x in k ==> !SameRule(m.rule, x.rule)
    ensures NoDup([m] + k)
  {
    var all := [m] + k;
    forall i, j | 0 <= i < |all| && 0 <= j < |all| && i != j
      ensures !SameRule(all[i].rule, all[j].rule)
    {
      if i > 0 && j > 0 {
        assert all[i] == k[i - 1] && all[j] == k[j - 1];
      } else if i == 0 {
        assert all[j] == k[j - 1] && all[j] in k;
      } else {
        assert all[i] == k[i - 1] && all[i] in k;
      }
    }
  }

  /** The pass keeps the first rule ahead of the rest's kept rules, or drops it. */
  lemma KeepPassKeepStep(rules: seq<Managed>, found: seq<Rule>, failing: set<HostOp>)
    requires |rules| > 0
    ensures var k := KeepPass(rules[1..], found, failing).keep;
            KeepPass(rules, found, failing).keep in {k, [rules[0]] + k}
  {
  }

  /** The operations the sweep of owned priorities issues. */
  datatype Issued = Issued(ops: seq<HostOp>, failed: seq<HostOp>)

  /** A host rule the sweep deletes: at an owned priority and equal to no managed rule there. */
  predicate Swept(f: Rule, owned: set<int>, rules: seq<Managed>) {
    f.priority in owned && !MatchedBy(rules, f)
  }

  /**
   * The sweep of owned priorities: every listed rule at an owned priority
   * that no managed rule at that priority (marked ones included) is equal
   * to gets deleted. A refusal does not stop the sweep.
   */
  function Sweep(found: seq<Rule>, owned: set<int>, rules: seq<Managed>, failing: set<HostOp>): (r: Issued)
    ensures r.failed == FailedOps(r.ops, failing)
    ensures forall op :: op in r.ops <==> op.RuleDel? && op.rule in found && Swept(op.rule, owned, rules)
  {
    if |found| == 0 then Issued([], [])
    else
      var rest := Sweep(found[1..], owned, rules, failing);
      assert forall x :: x in found <==> x == found[0] || x in found[1..];
      if Swept(found[0], owned, rules) then
        var op := RuleDel(found[0]);
        Issued([op] + rest.ops, if op in failing then [op] + rest.failed else rest.failed)
      else rest
  }

  /**
   * One reconciliation: list the host's rules (a listing failure changes
   * nothing), run the pass over the managed rules, then sweep the owned
   * priorities against the managed list as it was before the pass. The
   * refused operations are reported, in order, after every rule was visited.
   */
  function Reconcile(ctl: Controller, host: Host): (r: Outcome)
    ensures host.listing.None? ==> r == Outcome(ctl, [], [], true)
    ensures host.listing.Some? ==>
              && !r.listFailed
              && r.ctl.owned == ctl.owned
              && r.failed == FailedOps(r.ops, host.failing)
              && forall m :: m in r.ctl.rules <==> m in ctl.rules && Kept(m, host.listing.value, host.failing)
  {
    match host.listing
    case None => Outcome(ctl, [], [], true)
    case Some(found) =>
      var pass := KeepPass(ctl.rules, found, host.failing);
      var sweep := Sweep(found, ctl.owned, ctl.rules, host.failing);
      FailedOpsAppend(pass.ops, sweep.ops, host.failing);
      Outcome(Controller(pass.keep, ctl.owned), pass.ops + sweep.ops, pass.failed + sweep.failed, false)
  }

  /**
   * Exactly which operations a reconciliation issues: adds for the wanted
   * rules the host does not list, deletes for the listed rules standing for
   * marked rules and for the listed rules the sweep finds at owned
   * priorities. Nothing at a priority that is not owned is swept.
   */
  lemma ReconcileOps(ctl: Controller, found: seq<Rule>, failing: set<HostOp>)
    ensures var ops := Reconcile(ctl, Host(Some(found), failing)).ops;
            && (forall x :: RuleAdd(x) in ops <==>
                  exists m :: m in ctl.rules && !m.delete && FindRule(found, m.rule).None? && m.rule == x)
            && (forall x :: RuleDel(x) in ops <==>
                  (exists m :: m in ctl.rules && m.delete && FindRule(found, m.rule) == Some(x))
                  || (x in found && Swept(x, ctl.owned, ctl.rules)))
  {
    KeepPassOps(ctl.rules, found, failing);
  }

  /** Reconciliation keeps the managed rules free of duplicates. */
  lemma ReconcileNoDup(ctl: Controller, host: Host)
    requires NoDup(ctl.rules)
    ensures NoDup(Reconcile(ctl, host).ctl.rules)
  {
    if host.listing.Some? {
      KeepPassNoDup(ctl.rules, host.listing.value, host.failing);
    }
  }

  // ---------------------------------------------------------------------
  // The host after a reconciliation

  /** The host's listing after one operation; a delete removes every copy of the rule. */
  function Step(found: seq<Rule>, op: HostOp): seq<Rule> {
    match op
    case RuleAdd(x) => found + [x]
    case RuleDel(x) => Without(found, x)
  }

  function Without(found: seq<Rule>, x: Rule): (r: seq<Rule>)
    ensures forall y :: y in r <==> y in found && y != x
  {
    if |found| == 0 then []
    else
      assert forall y :: y in found <==> y == found[0] || y in found[1..];
      if found[0] == x then Without(found[1..], x) else [found[0]] + Without(found[1..], x)
  }

  /** The host's listing after the operations, in order. */
  function Apply(found: seq<Rule>, ops: seq<HostOp>): seq<Rule>
    decreases |ops|
  {
    if |ops| == 0 then found else Apply(Step(found, ops[0]), ops[1..])
  }

  /** When no rule is both added and deleted, the host ends up with the listed rules not deleted plus the added ones. */
  lemma {:induction false} ApplyMembers(found: seq<Rule>, ops: seq<HostOp>)
    requires forall x :: !(RuleAdd(x) in ops && RuleDel(x) in ops)
    ensures forall y :: y in Apply(found, ops) <==> (y in found && RuleDel(y) !in ops) || RuleAdd(y) in ops
    decreases |ops|
  {
    if |ops| > 0 {
      assert forall op :: op in ops <==> op == ops[0] || op in ops[1..];
      ApplyMembers(Step(found, ops[0]), ops[1..]);
    }
  }

  /** A reconciliation never both adds and deletes the same rule. */
  lemma ReconcileOpsDisjoint(ctl: Controller, found: seq<Rule>, failing: set<HostOp>)
    ensures var ops := Reconcile(ctl, Host(Some(found), failing)).ops;
            forall x :: !(RuleAdd(x) in ops && RuleDel(x) in ops)
  {
    var ops := Reconcile(ctl, Host(Some(found), failing)).ops;
    ReconcileOps(ctl, found, failing);
    forall x | RuleAdd(x) in ops
      ensures RuleDel(x) !in ops
    {
      var m :| m in ctl.rules && !m.delete && FindRule(found, m.rule).None? && m.rule == x;
      assert x !in found by {
        forall i | 0 <= i < |found|
          ensures found[i] != x
        {
          assert !Matches(found[i], m.rule);
        }
      }
    }
  }

  /** With no refused operation, only the wanted rules remain managed. */
  lemma SettledRules(ctl: Controller, found: seq<Rule>, failing: set<HostOp>)
    requires Reconcile(ctl, Host(Some(found), failing)).failed == []
    ensures forall m :: m in Reconcile(ctl, Host(Some(found), failing)).ctl.rules <==> m in ctl.rules && !m.delete
  {
    var r := Reconcile(ctl, Host(Some(found), failing));
    ReconcileOps(ctl, found, failing);
    forall m | m in ctl.rules && m.delete && FindRule(found, m.rule).Some?
      ensures RuleDel(FindRule(found, m.rule).value) !in failing
    {
      assert RuleDel(FindRule(found, m.rule).value) in r.ops;
    }
  }

  /** Every wanted rule is listed, at its priority, once the operations took effect. */
  lemma WantedListed(ctl: Controller, found: seq<Rule>, failing: set<HostOp>, m: Managed)
    requires NoDup(ctl.rules)
    requires m in ctl.rules && !m.delete
    ensures var ops := Reconcile(ctl, Host(Some(found), failing)).ops;
            FindRule(Apply(found, ops), m.rule).Some?
  {
    var ops := Reconcile(ctl, Host(Some(found), failing)).ops;
    ReconcileOps(ctl, found, failing);
    ReconcileOpsDisjoint(ctl, found, failing);
    ApplyMembers(found, ops);
    var after := Apply(found, ops);
    var k :| 0 <= k < |ctl.rules| && ctl.rules[k] == m;
    match FindRule(found, m.rule)
    case None =>
      assert RuleAdd(m.rule) in ops;
      var i :| 0 <= i < |after| && after[i] == m.rule;
      assert Matches(after[i], m.rule);
    case Some(f) =>
      assert MatchedBy(ctl.rules, f) by {
        assert Matches(f, ctl.rules[k].rule);
      }
      forall d | d in ctl.rules && d.delete && FindRule(found, d.rule) == Some(f)
        ensures false
      {
        var j :| 0 <= j < |ctl.rules| && ctl.rules[j] == d;
        assert SameRule(ctl.rules[j].rule, ctl.rules[k].rule);
      }
      assert RuleDel(f) !in ops;
      var i :| 0 <= i < |after| && after[i] == f;
      assert Matches(after[i], m.rule);
  }

  /** Every listed rule at an owned priority is wanted, once the operations took effect. */
  lemma OwnedListedWanted(ctl: Controller, found: seq<Rule>, failing: set<HostOp>, x: Rule)
    requires HostUnique(found)
    requires Reconcile(ctl, Host(Some(found), failing)).failed == []
    requires x in Apply(found, Reconcile(ctl, Host(Some(found), failing)).ops) && x.priority in ctl.owned
    ensures MatchedBy(Reconcile(ctl, Host(Some(found), failing)).ctl.rules, x)
  {
    var r := Reconcile(ctl, Host(Some(found), failing));
    ReconcileOps(ctl, found, failing);
    ReconcileOpsDisjoint(ctl, found, failing);
    ApplyMembers(found, r.ops);
    SettledRules(ctl, found, failing);
    var m: Managed;
    if RuleAdd(x) in r.ops {
      m :| m in ctl.rules && !m.delete && FindRule(found, m.rule).None? && m.rule == x;
    } else {
      assert x in found && RuleDel(x) !in r.ops;
      var i :| 0 <= i < |ctl.rules| && Matches(x, ctl.rules[i].rule);
      m := ctl.rules[i];
      assert !m.delete;
    }
    assert m in r.ctl.rules;
    var j :| 0 <= j < |r.ctl.rules| && r.ctl.rules[j] == m;
    assert Matches(x, r.ctl.rules[j].rule);
  }

  /** The pass issues nothing when every managed rule is wanted and listed. */
  lemma {:induction false} KeepPassQuiet(rules: seq<Managed>, found: seq<Rule>, failing: set<HostOp>)
    requires forall m :: m in rules ==> !m.delete && FindRule(found, m.rule).Some?
    ensures KeepPass(rules, found, failing).ops == []
    decreases |rules|
  {
    if |rules| > 0 {
      assert rules[0] in rules;
      assert forall m :: m in rules[1..] ==> m in rules;
      KeepPassQuiet(rules[1..], found, failing);
    }
  }

  /** The sweep issues nothing when every listed rule at an owned priority is matched. */
  lemma {:induction false} SweepQuiet(found: seq<Rule>, owned: set<int>, rules: seq<Managed>, failing: set<HostOp>)
    requires forall f :: f in found && f.priority in owned ==> MatchedBy(rules, f)
    ensures Sweep(found, owned, rules, failing).ops == []
    decreases |found|
  {
    if |found| > 0 {
      assert found[0] in found;
      assert forall f :: f in found[1..] ==> f in found;
      SweepQuiet(found[1..], owned, rules, failing);
    }
  }

  /**
   * Reconciliation converges: when no operation was refused, a second
   * reconciliation against the host as the first one left it issues no
   * operation at all. It needs managed rules without duplicates and a host
   * that does not list two different rules standing for the same one.
   */
  lemma ReconcileSettles(ctl: Controller, found: seq<Rule>, failing: set<HostOp>, failing': set<HostOp>)
    requires NoDup(ctl.rules)
    requires HostUnique(found)
    requires Reconcile(ctl, Host(Some(found), failing)).failed == []
    ensures var r := Reconcile(ctl, Host(Some(found), failing));
            Reconcile(r.ctl, Host(Some(Apply(found, r.ops)), failing')).ops == []
  {
    var r := Reconcile(ctl, Host(Some(found), failing));
    var after := Apply(found, r.ops);
    SettledRules(ctl, found, failing);
    forall m | m in r.ctl.rules
      ensures FindRule(after, m.rule).Some?
    {
      WantedListed(ctl, found, failing, m);
    }
    forall x | x in after && x.priority in ctl.owned
      ensures MatchedBy(r.ctl.rules, x)
    {
      OwnedListedWanted(ctl, found, failing, x);
    }
    KeepPassQuiet(r.ctl.rules, after, failing');
    SweepQuiet(after, r.ctl.owned, r.ctl.rules, failing');
  }

  // ---------------------------------------------------------------------
  // Entry points

  /** The managed list after an attempt to add a rule, and whether it changed. */
  datatype Appended = Appended(rules: seq<Managed>, changed: bool)

  /** Some managed rule, marked or not, is equal to the rule. */
  predicate Managing(rules: seq<Managed>, r: Rule) {
    exists i :: 0 <= i < |rules| && SameRule(rules[i].rule, r)
  }

  /**
   * The in-memory add as the source writes it: a no-op when any managed
   * rule is equal, marked ones included; otherwise the rule is appended
   * as wanted.
   */
  function AppendAsWritten(rules: seq<Managed>, r: Rule): (res: Appended)
    ensures res.changed <==> !Managing(rules, r)
    ensures res.changed ==> res.rules == rules + [Managed(r, false)]
    ensures !res.changed ==> res.rules == rules
    ensures NoDup(rules) ==> NoDup(res.rules)
  {
    if Managing(rules, r) then Appended(rules, false)
    else
      var next := rules + [Managed(r, false)];
      assert forall i :: 0 <= i < |rules| ==> next[i] == rules[i];
      Appended(next, true)
  }

  /** The public add as the source writes it: reconciles only when the rule was appended. */
  function AddAsWritten(ctl: Controller, r: Rule, host: Host): (out: Outcome)
    ensures Managing(ctl.rules, r) ==> out == Outcome(ctl, [], [], false)
    ensures !Managing(ctl.rules, r) ==>
              out == Reconcile(ctl.(rules := ctl.rules + [Managed(r, false)]), host)
  {
    var res := AppendAsWritten(ctl.rules, r);
    if !res.changed then Outcome(ctl, [], [], false)
    else Reconcile(ctl.(rules := res.rules), host)
  }

  /** The index of the first managed rule equal to the given one. */
  function FirstEqual(rules: seq<Managed>, r: Rule): (i: Option<nat>)
    ensures i.None? <==> !Managing(rules, r)
    ensures i.Some? ==> i.value < |rules| && SameRule(rules[i.value].rule, r)
                        && forall j :: 0 <= j < i.value ==> !SameRule(rules[j].rule, r)
  {
    if |rules| == 0 then None
    else if SameRule(rules[0].rule, r) then Some(0)
    else
      match FirstEqual(rules[1..], r)
      case None =>
        assert forall j :: 1 <= j < |rules| ==> rules[j] == rules[1..][j - 1];
        None
      case Some(k) =>
        assert forall j :: 1 <= j <= k ==> rules[j] == rules[1..][j - 1];
        Some(k + 1)
  }

  /**
   * The in-memory add as evidently intended: an equal rule that is marked
   * for deletion is wanted again, and the manager reconciles.
   */
  function AppendOrRestore(rules: seq<Managed>, r: Rule): (res: Appended)
    ensures exists i :: 0 <= i < |res.rules| && SameRule(res.rules[i].rule, r) && !res.rules[i].delete
    ensures !Managing(rules, r) ==> res == Appended(rules + [Managed(r, false)], true)
    ensures NoDup(rules) ==> NoDup(res.rules)
    ensures |res.rules| >= |rules|
    ensures forall i :: 0 <= i < |rules| ==> res.rules[i].rule == rules[i].rule
    ensures Managing(rules, r) ==>
              exists i :: 0 <= i < |rules| && SameRule(rules[i].rule, r)
                          && (forall j :: 0 <= j < i ==> !SameRule(rules[j].rule, r))
                          && res.changed == rules[i].delete
                          && res.rules == rules[i := Managed(rules[i].rule, false)]
  {
    match FirstEqual(rules, r)
    case None =>
      var next := rules + [Managed(r, false)];
      assert forall i :: 0 <= i < |rules| ==> next[i] == rules[i];
      assert next[|rules|] == Managed(r, false);
      Appended(next, true)
    case Some(i) =>
      if rules[i].delete then
        var next := rules[i := Managed(rules[i].rule, false)];
        assert next[i].rule == rules[i].rule;
        Appended(next, true)
      else
        assert rules[i := Managed(rules[i].rule, false)] == rules;
        Appended(rules, false)
  }

  /**
   * Adding a rule back right after marking it for deletion, before any
   * reconciliation, restores the managed list it was marked in.
   */
  lemma MarkThenRestore(rules: seq<Managed>, r: Rule)
    requires FirstEqual(rules, r).Some? && !rules[FirstEqual(rules, r).value].delete
    ensures AppendOrRestore(MarkForDeletion(rules, r).rules, r) == Appended(rules, true)
  {
    var i := FirstEqual(rules, r).value;
    var marked := MarkForDeletion(rules, r).rules;
    assert marked == rules[i := Managed(rules[i].rule, true)];
    assert FirstEqual(marked, r) == Some(i);
    assert marked[i := Managed(marked[i].rule, false)] == rules;
  }

  /** Add: ensures a rule is applied and restored when altered, reconciling only when the managed list changed. */
  function Add(ctl: Controller, r: Rule, host: Host): (out: Outcome)
    ensures exists i :: 0 <= i < |out.ctl.rules| && SameRule(out.ctl.rules[i].rule, r) && !out.ctl.rules[i].delete
    ensures out.ctl.owned == ctl.owned
    ensures (Managing(ctl.rules, r) && forall i :: 0 <= i < |ctl.rules| && SameRule(ctl.rules[i].rule, r) ==> !ctl.rules[i].delete)
            ==> out == Outcome(ctl, [], [], false)
    ensures !AppendOrRestore(ctl.rules, r).changed ==> out == Outcome(ctl, [], [], false)
    ensures AppendOrRestore(ctl.rules, r).changed && host.listing.None? ==>
              out == Outcome(ctl.(rules := AppendOrRestore(ctl.rules, r).rules), [], [], true)
    ensures AppendOrRestore(ctl.rules, r).changed && host.listing.Some? ==>
              var rules := AppendOrRestore(ctl.rules, r).rules;
              var found := host.listing.value;
              && !out.listFailed
              && out.failed == FailedOps(out.ops, host.failing)
              && (forall m :: m in out.ctl.rules <==> m in rules && Kept(m, found, host.failing))
              && (forall x :: RuleAdd(x) in out.ops <==>
                    exists m :: m in rules && !m.delete && FindRule(found, m.rule).None? && m.rule == x)
              && (forall x :: RuleDel(x) in out.ops <==>
                    (exists m :: m in rules && m.delete && FindRule(found, m.rule) == Some(x))
                    || (x in found && Swept(x, ctl.owned, rules)))
    ensures !Managing(ctl.rules, r) && host.listing.Some? ==>
              (RuleAdd(r) in out.ops <==> FindRule(host.listing.value, r).None?)
  {
    var res := AppendOrRestore(ctl.rules, r);
    if !res.changed then Outcome(ctl, [], [], false)
    else
      var next := ctl.(rules := res.rules);
      var out := Reconcile(next, host);
      var i :| 0 <= i < |res.rules| && SameRule(res.rules[i].rule, r) && !res.rules[i].delete;
      assert res.rules[i] in out.ctl.rules by {
        assert res.rules[i] in next.rules;
      }
      var j :| 0 <= j < |out.ctl.rules| && out.ctl.rules[j] == res.rules[i];
      if host.listing.Some? then
        ReconcileOps(next, host.listing.value, host.failing);
        assert !Managing(ctl.rules, r) ==> res.rules[|ctl.rules|] == Managed(r, false);
        out
      else out
  }

  /**
   * An add that changed the managed list takes effect on the host: some
   * wanted managed rule equal to the added one is listed once the
   * reconciliation's operations have been applied.
   */
  lemma AddListed(ctl: Controller, r: Rule, found: seq<Rule>, failing: set<HostOp>)
    requires NoDup(ctl.rules)
    requires AppendOrRestore(ctl.rules, r).changed
    ensures var out := Add(ctl, r, Host(Some(found), failing));
            exists m :: m in out.ctl.rules && !m.delete && SameRule(m.rule, r)
                        && FindRule(Apply(found, out.ops), m.rule).Some?
  {
    var res := AppendOrRestore(ctl.rules, r);
    var next := ctl.(rules := res.rules);
    var out := Add(ctl, r, Host(Some(found), failing));
    assert out == Reconcile(next, Host(Some(found), failing));
    var i :| 0 <= i < |res.rules| && SameRule(res.rules[i].rule, r) && !res.rules[i].delete;
    var m := res.rules[i];
    WantedListed(next, found, failing, m);
    assert m in out.ctl.rules;
  }

  /** The managed list after marking a rule for deletion, and whether a rule matched. */
  datatype Marked = Marked(rules: seq<Managed>, matched: bool)

  /** Marks the first managed rule equal to the given one; nothing else changes. */
  function MarkForDeletion(rules: seq<Managed>, r: Rule): (res: Marked)
    ensures res.matched <==> Managing(rules, r)
    ensures |res.rules| == |rules|
    ensures forall i :: 0 <= i < |rules| ==> res.rules[i].rule == rules[i].rule
    ensures !res.matched ==> res.rules == rules
    ensures res.matched ==> exists i :: 0 <= i < |rules| && SameRule(rules[i].rule, r)
                                      && (forall j :: 0 <= j < i ==> !SameRule(rules[j].rule, r))
                                      && res.rules == rules[i := Managed(rules[i].rule, true)]
  {
    match FirstEqual(rules, r)
    case None => Marked(rules, false)
    case Some(i) => Marked(rules[i := Managed(rules[i].rule, true)], true)
  }

  /** Delete: stops managing a rule and deletes it from the host; without an equal managed rule nothing happens. */
  function Delete(ctl: Controller, r: Rule, host: Host): (out: Outcome)
    ensures !Managing(ctl.rules, r) ==> out == Outcome(ctl, [], [], false)
    ensures Managing(ctl.rules, r) ==> out == Reconcile(ctl.(rules := MarkForDeletion(ctl.rules, r).rules), host)
  {
    var res := MarkForDeletion(ctl.rules, r);
    if res.matched then Reconcile(ctl.(rules := res.rules), host)
    else Outcome(ctl, [], [], false)
  }

  /**
   * Delete forgets the rule: once the host accepts every operation, no
   * managed rule equal to the deleted one is left.
   */
  lemma DeleteForgets(ctl: Controller, r: Rule, found: seq<Rule>)
    requires NoDup(ctl.rules)
    ensures forall m :: m in Delete(ctl, r, Host(Some(found), {})).ctl.rules ==> !SameRule(m.rule, r)
  {
    var out := Delete(ctl, r, Host(Some(found), {}));
    if Managing(ctl.rules, r) {
      var marked := MarkForDeletion(ctl.rules, r).rules;
      var i :| 0 <= i < |ctl.rules| && SameRule(ctl.rules[i].rule, r)
               && marked == ctl.rules[i := Managed(ctl.rules[i].rule, true)];
      forall m | m in out.ctl.rules
        ensures !SameRule(m.rule, r)
      {
        assert m in marked && Kept(m, found, {});
        var k :| 0 <= k < |marked| && marked[k] == m;
        assert k != i;
        assert !SameRule(ctl.rules[k].rule, ctl.rules[i].rule);
      }
    }
  }

  /**
   * Delete removes the rule from the host: once the host accepts every
   * operation, the host's table holds nothing standing for the marked rule.
   */
  lemma DeleteRemovesFromHost(ctl: Controller, r: Rule, found: seq<Rule>)
    requires NoDup(ctl.rules) && HostUnique(found) && Managing(ctl.rules, r)
    ensures var c := ctl.rules[FirstEqual(ctl.rules, r).value].rule;
            forall x :: x in Apply(found, Delete(ctl, r, Host(Some(found), {})).ops) ==> !Matches(x, c)
  {
    var i := FirstEqual(ctl.rules, r).value;
    var c := ctl.rules[i].rule;
    var marked := MarkForDeletion(ctl.rules, r).rules;
    assert marked == ctl.rules[i := Managed(c, true)];
    var next := ctl.(rules := marked);
    var ops := Reconcile(next, Host(Some(found), {})).ops;
    assert Delete(ctl, r, Host(Some(found), {})).ops == ops;
    ReconcileOps(next, found, {});
    ReconcileOpsDisjoint(next, found, {});
    ApplyMembers(found, ops);
    forall y | y in found && Matches(y, c)
      ensures RuleDel(y) in ops
    {
      var f := FindRule(found, c).value;
      assert marked[i] in marked && marked[i].delete;
      var a :| 0 <= a < |found| && found[a] == y;
      var b :| 0 <= b < |found| && found[b] == f;
      assert Matches(found[a], found[b]);
    }
    forall x | RuleAdd(x) in ops
      ensures !Matches(x, c)
    {
      var m :| m in marked && !m.delete && FindRule(found, m.rule).None? && m.rule == x;
      var k :| 0 <= k < |marked| && marked[k] == m;
      assert k != i;
      assert !SameRule(ctl.rules[k].rule, c);
    }
  }

  /**
   * OwnPriority: the priority joins the owned ones whether or not the host
   * can be listed, and the reconciliation that follows sweeps it too: every
   * listed rule at the priority that no managed rule there equals is deleted.
   */
  function OwnPriority(ctl: Controller, priority: int, host: Host): (out: Outcome)
    ensures out.ctl.owned == ctl.owned + {priority}
    ensures host.listing.None? ==> out.ctl.rules == ctl.rules && out.ops == [] && out.failed == [] && out.listFailed
    ensures host.listing.Some? ==>
              forall f :: f in host.listing.value && f.priority == priority && !MatchedBy(ctl.rules, f) ==> RuleDel(f) in out.ops
    ensures host.listing.Some? ==>
              var found := host.listing.value;
              && !out.listFailed
              && out.failed == FailedOps(out.ops, host.failing)
              && (forall m :: m in out.ctl.rules <==> m in ctl.rules && Kept(m, found, host.failing))
              && (forall x :: RuleAdd(x) in out.ops <==>
                    exists m :: m in ctl.rules && !m.delete && FindRule(found, m.rule).None? && m.rule == x)
              && (forall x :: RuleDel(x) in out.ops <==>
                    (exists m :: m in ctl.rules && m.delete && FindRule(found, m.rule) == Some(x))
                    || (x in found && (x.priority in ctl.owned || x.priority == priority) && !MatchedBy(ctl.rules, x)))
  {
    var next := ctl.(owned := ctl.owned + {priority});
    var out := Reconcile(next, host);
    if host.listing.Some? then
      ReconcileOps(next, host.listing.value, host.failing);
      out
    else out
  }

  // ---------------------------------------------------------------------
  // The add after a refused delete

  /**
   * A delete the host refuses leaves the rule managed but marked: the
   * starting state of the two lemmas below.
   */
  lemma RefusedDeleteStaysMarked(r: Rule, owned: set<int>)
    ensures var out := Delete(Controller([Managed(r, false)], owned), r, Host(Some([r]), {RuleDel(r)}));
            && out.ctl == Controller([Managed(r, true)], owned)
            && out.ops == [RuleDel(r)]
            && out.failed == [RuleDel(r)]
  {
    var rules := [Managed(r, false)];
    var marked := [Managed(r, true)];
    assert FirstEqual(rules, r) == Some(0);
    assert MarkForDeletion(rules, r).rules == marked;
    assert FindRule([r], r) == Some(r);
    assert MatchedBy(marked, r) by {
      assert Matches(r, marked[0].rule);
    }
    assert KeepPass(marked[1..], [r], {RuleDel(r)}) == Pass([], [], []);
    assert KeepPass(marked, [r], {RuleDel(r)}) == Pass(marked, [RuleDel(r)], [RuleDel(r)]);
    assert Sweep([r][1..], owned, marked, {RuleDel(r)}) == Issued([], []);
    assert Sweep([r], owned, marked, {RuleDel(r)}) == Issued([], []);
  }

  /**
   * As written, adding back a rule whose deletion was refused is a no-op:
   * the rule stays marked, and the next reconciliation deletes it from the
   * host and forgets it.
   */
  lemma AddAfterRefusedDeleteLost(r: Rule, owned: set<int>, host: Host)
    ensures var ctl := Controller([Managed(r, true)], owned);
            && AddAsWritten(ctl, r, host) == Outcome(ctl, [], [], false)
            && var next := Reconcile(ctl, Host(Some([r]), {}));
               next.ops == [RuleDel(r)] && next.ctl.rules == []
  {
    var ctl := Controller([Managed(r, true)], owned);
    assert SameRule(ctl.rules[0].rule, r);
    assert FindRule([r], r) == Some(r);
    assert MatchedBy(ctl.rules, r) by {
      assert Matches(r, ctl.rules[0].rule);
    }
    var pass := KeepPass(ctl.rules, [r], {});
    assert KeepPass(ctl.rules[1..], [r], {}) == Pass([], [], []);
    assert pass == Pass([], [RuleDel(r)], []);
    assert Sweep([r][1..], owned, ctl.rules, {}) == Issued([], []);
    assert Sweep([r], owned, ctl.rules, {}) == Issued([], []);
  }

  /** As intended, adding the rule back makes it wanted again, and the next reconciliation keeps it listed. */
  lemma AddAfterRefusedDeleteKept(r: Rule, owned: set<int>)
    ensures var ctl := Controller([Managed(r, true)], owned);
            var out := Add(ctl, r, Host(Some([r]), {}));
            && out.ops == []
            && out.ctl.rules == [Managed(r, false)]
  {
    var ctl := Controller([Managed(r, true)], owned);
    var rules := [Managed(r, false)];
    assert FirstEqual(ctl.rules, r) == Some(0);
    assert AppendOrRestore(ctl.rules, r) == Appended(rules, true);
    assert FindRule([r], r) == Some(r);
    assert MatchedBy(rules, r) by {
      assert Matches(r, rules[0].rule);
    }
    assert KeepPass(rules[1..], [r], {}) == Pass([], [], []);
    assert KeepPass(rules, [r], {}) == Pass(rules, [], []);
    assert Sweep([r][1..], owned, rules, {}) == Issued([], []);
    assert Sweep([r], owned, rules, {}) == Issued([], []);
  }
}
