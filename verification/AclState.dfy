/** An ACL selector as a value: what ACLSetSelector() does to it, over every sequence of operations. */
module AclState {
  import opened CString
  import opened AclRules
  import opened AclText
  import opened AclReplay
  import SdsArgs

  /** The allowed commands and first arguments, the ALLCOMMANDS flag, and the rules. */
  datatype State = State(points: iset<Point>, all: bool, rules: seq<Rule>)

  /** ACLCreateSelector() */
  ghost function Fresh(): State { State(iset{}, false, []) }

  /** ACLSetSelectorCommandBit() clears the flag with any bit. */
  ghost predicate ClearsABit(e: Effect) { exists id: nat :: Bit(id) in e.scope && Bit(id) !in e.on }

  ghost function Changed(t: Table, s: State, r: Rule): State
    requires ValidRule(t, r)
  {
    var e := RuleEffect(t, r);
    State(Do(s.points, e), s.all && !ClearsABit(e), UpdateRules(s.rules, r))
  }

  /** One operation; a refused one changes nothing. */
  ghost function Step(t: Table, s: State, op: string): State {
    match Parse(t, op)
    case SetAll(allow) => State(Everything(allow), allow, [])
    case Change(r) => ParseValid(t, op); Changed(t, s, r)
    case NotCommands => s
    case Refused => s
  }

  ghost function Run(t: Table, s: State, ops: seq<string>): State {
    if ops == [] then s else Step(t, Run(t, s, ops[..|ops| - 1]), ops[|ops| - 1])
  }

  predicate NoneMatches(rules: seq<Rule>, text: string) {
    forall i :: 0 <= i < |rules| ==> !Matches(RuleText(rules[i]), text)
  }

  /** No rule is replaced by a later one. */
  predicate Compact(rules: seq<Rule>) {
    rules == [] ||
    (Compact(rules[..|rules| - 1]) && NoneMatches(rules[..|rules| - 1], RuleText(rules[|rules| - 1])))
  }

  /** Whether future commands are allowed: ACLSelectorCanExecuteFutureCommands(). */
  ghost predicate Future(s: State) { Bit(RESERVED) in s.points }

  ghost predicate Inv(t: Table, s: State) {
    && ValidRules(t, s.rules)
    && Compact(s.rules)
    && s.points == Rebuilt(t, Future(s), s.rules)
    && (s.all ==> Everything(true) <= s.points)
  }

  // ----- the rule list -----

  lemma {:induction false} RemoveMatches(rules: seq<Rule>, text: string, other: string)
    ensures NoneMatches(RemoveRules(rules, text), text)
    ensures NoneMatches(rules, other) ==> NoneMatches(RemoveRules(rules, text), other)
    ensures NoneMatches(rules, text) ==> RemoveRules(rules, text) == rules
  {
    hide Matches, RuleText;
    if rules != [] {
      var init, last := rules[..|rules| - 1], rules[|rules| - 1];
      assert rules == init + [last];
      RemoveMatches(init, text, other);
    }
  }

  lemma CompactSnoc(kept: seq<Rule>, last: Rule)
    requires Compact(kept) && NoneMatches(kept, RuleText(last))
    ensures Compact(kept + [last])
  {
    hide Matches, RuleText, NoneMatches;
    assert (kept + [last])[..|kept|] == kept;
  }

  lemma {:induction false} RemoveCompact(rules: seq<Rule>, text: string)
    requires Compact(rules)
    ensures Compact(RemoveRules(rules, text))
  {
    hide Matches, RuleText, NoneMatches;
    if rules != [] {
      var init, last := rules[..|rules| - 1], rules[|rules| - 1];
      RemoveCompact(init, text);
      RemoveMatches(init, text, RuleText(last));
      hide Compact;
      var kept := RemoveRules(init, text);
      if Matches(RuleText(last), text) {
        assert kept + [] == kept;
      } else {
        CompactSnoc(kept, last);
      }
    }
  }

  lemma UpdateCompact(rules: seq<Rule>, r: Rule)
    requires Compact(rules)
    ensures Compact(UpdateRules(rules, r))
    ensures NoneMatches(rules, RuleText(r)) ==> UpdateRules(rules, r) == rules + [r]
  {
    hide Matches, RuleText, NoneMatches;
    RemoveCompact(rules, RuleText(r));
    RemoveMatches(rules, RuleText(r), RuleText(r));
    hide Compact;
    CompactSnoc(RemoveRules(rules, RuleText(r)), r);
  }

  // ----- every operation keeps the invariant -----

  lemma RuleSparesReserved(t: Table, r: Rule)
    requires ValidTable(t) && ValidRule(t, r)
    ensures forall id: nat :: Bit(id) in RuleEffect(t, r).scope ==> id < RESERVED
  {
    match r.target
    case OfCommand(name) => SubsBelowReserved(t, name);
    case OfSub(name, sub) => assert IsName(sub);
    case OfFirstArg(name, arg) =>
    case OfCategory(category) => CategoryBelowReserved(t, category);
  }

  lemma SubsBelowReserved(t: Table, name: string)
    requires ValidTable(t) && name in t.commands
    ensures t.commands[name].id < RESERVED
    ensures forall id: nat :: HasSub(t.commands[name], id) ==> id < RESERVED
  {
    forall id: nat | HasSub(t.commands[name], id) ensures id < RESERVED {
      var c := t.commands[name];
      var sub :| sub in c.subs.value && c.subs.value[sub].id == id;
      assert IsName(sub);
    }
  }

  lemma CategoryBelowReserved(t: Table, category: string)
    requires ValidTable(t)
    ensures forall id: nat :: InCategory(t, id, category) ==> id < RESERVED
  {
    hide ValidTable;
    forall id: nat | InCategory(t, id, category) ensures id < RESERVED {
      var c :| c in t.commands && SetBy(t.commands[c], id, category);
      SubsBelowReserved(t, c);
      assert SubIn(t.commands[c], id, category) ==> HasSub(t.commands[c], id);
    }
  }

  lemma OnWithinScope(t: Table, r: Rule)
    requires ValidRule(t, r)
    ensures RuleEffect(t, r).on <= RuleEffect(t, r).scope
  {
    OnWithin(t, r.target, r.allow);
  }

  lemma FlagKept(p: iset<Point>, e: Effect)
    requires Everything(true) <= p && !ClearsABit(e)
    ensures Everything(true) <= Do(p, e)
  {
    forall x | x in Everything(true) ensures x in Do(p, e) {
      assert x == Bit(x.id);
    }
  }

  lemma ChangedKeeps(t: Table, s: State, r: Rule)
    requires ValidTable(t) && ValidRule(t, r) && Inv(t, s)
    ensures Inv(t, Changed(t, s, r)) && Future(Changed(t, s, r)) == Future(s)
  {
    hide ValidTable, ValidRule, ValidRules, Compact, RuleEffect, UpdateRules, Everything, ClearsABit;
    RuleSparesReserved(t, r);
    OnWithinScope(t, r);
    assert Future(Changed(t, s, r)) == Future(s);
    UpdateRebuilds(t, Future(s), s.rules, r);
    UpdateCompact(s.rules, r);
    if Changed(t, s, r).all { FlagKept(s.points, RuleEffect(t, r)); }
  }

  lemma StepKeeps(t: Table, s: State, op: string)
    requires ValidTable(t) && Inv(t, s)
    ensures Inv(t, Step(t, s, op))
  {
    hide ValidTable, Changed, Parse;
    if Parse(t, op).Change? {
      ParseValid(t, op);
      ChangedKeeps(t, s, Parse(t, op).rule);
    }
  }

  lemma FreshInv(t: Table)
    ensures Inv(t, Fresh())
  {}

  lemma {:induction false} RunKeeps(t: Table, s: State, ops: seq<string>)
    requires ValidTable(t) && Inv(t, s)
    ensures Inv(t, Run(t, s, ops))
  {
    hide ValidTable, Inv, Step;
    if ops != [] {
      RunKeeps(t, s, ops[..|ops| - 1]);
      StepKeeps(t, Run(t, s, ops[..|ops| - 1]), ops[|ops| - 1]);
    }
  }

  /** Whether the last whole-set operation was +@all; the selector starts without commands. */
  function LastWasAll(t: Table, ops: seq<string>): bool {
    if ops == [] then false
    else match Parse(t, ops[|ops| - 1])
         case SetAll(allow) => allow
         case _ => LastWasAll(t, ops[..|ops| - 1])
  }

  /** The reserved bit remembers the last whole-set operation. */
  lemma {:induction false} ReservedBit(t: Table, ops: seq<string>)
    requires ValidTable(t)
    ensures Future(Run(t, Fresh(), ops)) == LastWasAll(t, ops)
  {
    hide ValidTable, Inv, Changed, Parse;
    if ops != [] {
      var init, op := ops[..|ops| - 1], ops[|ops| - 1];
      ReservedBit(t, init);
      FreshInv(t);
      RunKeeps(t, Fresh(), init);
      if Parse(t, op).Change? {
        ParseValid(t, op);
        ChangedKeeps(t, Run(t, Fresh(), init), Parse(t, op).rule);
      }
    }
  }

  // ----- replaying the rules -----

  function RuleOps(rules: seq<Rule>): (ops: seq<string>)
    ensures |ops| == |rules| && forall i :: 0 <= i < |rules| ==> ops[i] == RuleOp(rules[i])
  {
    if rules == [] then [] else RuleOps(rules[..|rules| - 1]) + [RuleOp(rules[|rules| - 1])]
  }

  function AllOp(all: bool): string { if all then "+@all" else "-@all" }

  /** The operations a description lists. */
  ghost function Described(s: State): seq<string> { [AllOp(Future(s))] + RuleOps(s.rules) }

  lemma ParseAll(t: Table, all: bool)
    ensures Parse(t, AllOp(all)) == SetAll(all)
  {
    assert Lower("+@all") == "+@all" && Lower("-@all") == "-@all" && "+@all"[0] != "-@all"[0];
    assert Lower("allkeys")[0] == 'a' && Lower("~*")[0] == '~' && Lower("resetkeys")[0] == 'r';
    assert Lower("allchannels")[0] == 'a' && Lower("&*")[0] == '&' && Lower("resetchannels")[0] == 'r';
    assert Lower("allcommands")[0] == 'a' && Lower("nocommands")[0] == 'n';
  }

  lemma {:induction false} ReplayPrefix(t: Table, s: State, all: bool, rules: seq<Rule>)
    requires ValidTable(t) && ValidRules(t, rules) && Compact(rules)
    ensures var r := Run(t, s, [AllOp(all)] + RuleOps(rules));
            r.points == Rebuilt(t, all, rules) && r.rules == rules
  {
    hide ValidTable, ValidRule, Parse, UpdateRules, Everything, RuleEffect, Do, Step;
    var ops := [AllOp(all)] + RuleOps(rules);
    if rules == [] {
      assert ops == [AllOp(all)] && ops[..0] == [];
      ParseAll(t, all);
      AllStep(t, s, all);
    } else {
      var init, last := rules[..|rules| - 1], rules[|rules| - 1];
      assert ops[..|ops| - 1] == [AllOp(all)] + RuleOps(init) && ops[|ops| - 1] == RuleOp(last);
      assert init + [last] == rules;
      ReplayPrefix(t, s, all, init);
      UpdateCompact(init, last);
      RuleStep(t, Run(t, s, ops[..|ops| - 1]), last);
    }
  }

  lemma AllStep(t: Table, s: State, all: bool)
    requires Parse(t, AllOp(all)) == SetAll(all)
    ensures Step(t, s, AllOp(all)) == State(Everything(all), all, [])
  {
    hide Parse, Everything;
  }

  lemma RuleStep(t: Table, s: State, r: Rule)
    requires ValidTable(t) && ValidRule(t, r)
    ensures Step(t, s, RuleOp(r)) == Changed(t, s, r)
  {
    hide Parse, Changed, ValidTable, ValidRule, RuleOp;
    ParseRule(t, r);
  }

  /** Whatever operations built the selector, and whatever the selector they are applied to, the operations
      of its description are accepted and give the same permissions and the same rules. */
  lemma ReplayRebuilds(t: Table, ops: seq<string>, other: State)
    requires ValidTable(t)
    ensures var s := Run(t, Fresh(), ops);
            var r := Run(t, other, Described(s));
            r.points == s.points && r.rules == s.rules
    ensures forall op :: op in Described(Run(t, Fresh(), ops)) ==> !Parse(t, op).Refused?
  {
    hide ValidTable, Step, Parse, Run, Fresh, AllOp, Compact, Rebuilt, RuleOps;
    FreshInv(t);
    RunKeeps(t, Fresh(), ops);
    var s := Run(t, Fresh(), ops);
    ReplayPrefix(t, other, Future(s), s.rules);
    ParseAll(t, Future(s));
    forall i | 0 <= i < |s.rules| ensures Parse(t, RuleOps(s.rules)[i]).Change? { ParseRule(t, s.rules[i]); }
  }

  // ----- from the string -----

  /** Command, subcommand and category names contain no separator or quote. */
  ghost predicate PlainTable(t: Table) {
    && (forall c :: c in t.commands ==> Plain(c))
    && (forall c, s :: c in t.commands && t.commands[c].subs.Some? && s in t.commands[c].subs.value ==> Plain(s))
    && (forall k :: k in t.categories ==> Plain(k))
  }

  predicate PlainTarget(x: Target) { x.OfFirstArg? ==> Plain(x.arg) }

  predicate PlainRules(rules: seq<Rule>) { forall i :: 0 <= i < |rules| ==> PlainTarget(rules[i].target) }

  lemma PlainRuleOp(t: Table, r: Rule)
    requires PlainTable(t) && ValidRule(t, r)
    ensures Signed(RuleOp(r)) && (Plain(RuleOp(r)) <==> PlainTarget(r.target))
  {
    var op := RuleOp(r);
    assert op[1..] == RuleText(r);
    assert forall i :: 0 < i < |op| ==> op[i] == RuleText(r)[i - 1];
    match r.target
    case OfCommand(name) =>
    case OfSub(name, sub) => PlainPair(name, sub);
    case OfFirstArg(name, arg) => PlainPair(name, arg); PlainTail(op);
    case OfCategory(category) =>
  }

  lemma PlainPair(a: string, b: string)
    requires Plain(a)
    ensures Plain(a + "|" + b) <==> Plain(b)
  {
    var s := a + "|" + b;
    assert forall i :: 0 <= i < |b| ==> s[|a| + 1 + i] == b[i];
  }

  lemma PlainTail(op: string)
    requires Signed(op)
    ensures Plain(op) <==> Plain(op[1..])
  {
    assert forall i :: 0 <= i < |op| - 1 ==> op[1..][i] == op[i + 1];
    assert forall i :: 0 < i < |op| ==> op[i] == op[1..][i - 1];
  }

  /** ACLDescribeSelectorCommandRules() replays the split string on a fresh selector; None is an assertion
      failure: unbalanced quotes or a refused operation. */
  ghost function Reread(t: Table, all: bool, text: string): Option<State> {
    match SdsArgs.SplitArgs(text)
    case None => None
    case Some(ops) =>
      if forall i :: 0 <= i < |ops| ==> !Parse(t, ops[i]).Refused? then Some(Run(t, Fresh(), [AllOp(all)] + ops))
      else None
  }

  ghost predicate Replays(t: Table, s: State) {
    var r := Reread(t, Future(s), Join(RuleOps(s.rules)));
    r.Some? && r.value.points == s.points
  }

  lemma PlainOps(t: Table, rules: seq<Rule>)
    requires PlainTable(t) && ValidRules(t, rules) && PlainRules(rules)
    ensures forall i :: 0 <= i < |rules| ==> PlainOp(RuleOps(rules)[i])
  {
    forall i | 0 <= i < |rules| ensures PlainOp(RuleOps(rules)[i]) { PlainRuleOp(t, rules[i]); }
  }

  lemma SplitRules(t: Table, rules: seq<Rule>)
    requires PlainTable(t) && ValidRules(t, rules) && PlainRules(rules)
    ensures SdsArgs.SplitArgs(Join(RuleOps(rules))) == Some(RuleOps(rules))
  {
    hide SdsArgs.SplitArgs, PlainTable, ValidRule, PlainTarget, Join, PlainOp;
    if rules == [] {
      assert RuleOps(rules) == [] && Join([]) == "" by { JoinNothing(); }
      SplitNothing();
    } else {
      var init, last := rules[..|rules| - 1], rules[|rules| - 1];
      PlainOps(t, init);
      PlainRuleOp(t, last);
      SplitJoin(RuleOps(init), RuleOp(last));
    }
  }

  lemma JoinNothing()
    ensures Join([]) == ""
  {}

  /** The string of a selector whose rules are plain replays to the selector, rules included. */
  lemma DescriptionReplays(t: Table, s: State)
    requires ValidTable(t) && PlainTable(t) && Inv(t, s) && PlainRules(s.rules)
    ensures Replays(t, s)
    ensures Reread(t, Future(s), Join(RuleOps(s.rules))).value.rules == s.rules
  {
    hide ValidTable, PlainTable, PlainRules, SdsArgs.SplitArgs, Parse, Run, Join;
    SplitRules(t, s.rules);
    ReplayPrefix(t, Fresh(), Future(s), s.rules);
    forall i | 0 <= i < |s.rules| ensures Parse(t, RuleOps(s.rules)[i]).Change? { ParseRule(t, s.rules[i]); }
  }

  /** The operation allows exactly this first argument. */
  predicate Allows(t: Table, op: string, name: string, arg: string) {
    Parse(t, op).Change? && Parse(t, op).rule.target == OfFirstArg(name, arg)
  }

  lemma FirstArgLength(t: Table, op: string, name: string, arg: string)
    requires Allows(t, op, name, arg)
    ensures |op| == |name| + |arg| + 2
  {
    var text := op[1..];
    var bar := LastBar(text);
    assert ParseTarget(t, op[0] == '+', text) == Some(OfFirstArg(name, arg));
    assert name == Lower(text[..bar]) && arg == Lower(text[bar + 1..]);
  }

  lemma OnlyAllowsSets(t: Table, r: Rule, name: string, arg: string)
    requires ValidTable(t) && ValidRule(t, r) && name in t.commands
    requires First(t.commands[name].id, arg) in RuleEffect(t, r).on
    ensures r.target == OfFirstArg(name, arg)
  {}

  lemma {:induction false} NeverAllowed(t: Table, ops: seq<string>, name: string, arg: string)
    requires ValidTable(t) && name in t.commands
    requires forall i :: 0 <= i < |ops| ==> !Allows(t, ops[i], name, arg)
    ensures First(t.commands[name].id, arg) !in Run(t, Fresh(), ops).points
  {
    hide ValidTable, Parse, RuleEffect, UpdateRules;
    if ops != [] {
      var init, op := ops[..|ops| - 1], ops[|ops| - 1];
      NeverAllowed(t, init, name, arg);
      if Parse(t, op).Change? {
        ParseValid(t, op);
        var r := Parse(t, op).rule;
        if First(t.commands[name].id, arg) in RuleEffect(t, r).on { OnlyAllowsSets(t, r, name, arg); }
      }
    }
  }

  lemma {:induction false} RemovePlain(rules: seq<Rule>, text: string)
    requires PlainRules(rules)
    ensures PlainRules(RemoveRules(rules, text))
  {
    hide Matches, RuleText;
    if rules != [] { RemovePlain(rules[..|rules| - 1], text); }
  }

  /** None of the operations the string splits into allows the argument again. */
  lemma LostArg(t: Table, kept: seq<Rule>, r: Rule, ops: seq<string>, i: nat)
    requires ValidTable(t) && PlainTable(t) && ValidRules(t, kept) && ValidRule(t, r) && PlainRules(kept)
    requires NoneMatches(kept, RuleText(r)) && r.target.OfFirstArg? && !Plain(r.target.arg)
    requires SdsArgs.SplitArgs(Join(RuleOps(kept + [r]))) == Some(ops) && i < |ops|
    ensures !Allows(t, ops[i], r.target.name, r.target.arg)
  {
    hide ValidTable, PlainTable, SdsArgs.SplitArgs, Parse, Join, Plain, Lead;
    var op := RuleOp(r);
    assert (kept + [r])[..|kept|] == kept;
    PlainOps(t, kept);
    PlainRuleOp(t, r);
    JoinAppend(RuleOps(kept), op);
    SplitLead(RuleOps(kept), op);
    TokensShorter(op);
    if i < |kept| {
      ParseRule(t, kept[i]);
    } else {
      assert ops[i] in SdsArgs.SplitArgs(op).value;
      if Allows(t, ops[i], r.target.name, r.target.arg) { FirstArgLength(t, ops[i], r.target.name, r.target.arg); }
    }
  }

  lemma LostForGood(t: Table, u: State, kept: seq<Rule>, r: Rule)
    requires ValidTable(t) && PlainTable(t) && ValidRules(t, kept) && ValidRule(t, r) && PlainRules(kept)
    requires NoneMatches(kept, RuleText(r)) && r.target.OfFirstArg? && !Plain(r.target.arg)
    requires u.rules == kept + [r] && First(t.commands[r.target.name].id, r.target.arg) in u.points
    ensures !Replays(t, u)
  {
    hide ValidTable, PlainTable, ValidRules, SdsArgs.SplitArgs, Parse, Join, Plain, RuleText, NoneMatches, Run;
    if SdsArgs.SplitArgs(Join(RuleOps(u.rules))).Some? {
      var ops := SdsArgs.SplitArgs(Join(RuleOps(u.rules))).value;
      var all := [AllOp(Future(u))] + ops;
      var name, arg := r.target.name, r.target.arg;
      ParseAll(t, Future(u));
      forall i | 0 <= i < |all| ensures !Allows(t, all[i], name, arg) {
        if i > 0 { LostArg(t, kept, r, ops, i - 1); }
      }
      NeverAllowed(t, all, name, arg);
    }
  }

  /** Allowing a first argument keeps the selector replayable exactly when the argument has no separator
      and no quote: nothing else in ACLSetSelector() refuses such an argument. */
  lemma FirstArgReplays(t: Table, s: State, r: Rule)
    requires ValidTable(t) && PlainTable(t) && Inv(t, s) && PlainRules(s.rules)
    requires ValidRule(t, r) && r.target.OfFirstArg?
    ensures Replays(t, Changed(t, s, r)) <==> Plain(r.target.arg)
  {
    hide ValidTable, PlainTable, Plain, RuleText, Replays, Rebuilt;
    var u, kept := Changed(t, s, r), RemoveRules(s.rules, RuleText(r));
    ChangedKeeps(t, s, r);
    RemovePlain(s.rules, RuleText(r));
    RemoveMatches(s.rules, RuleText(r), "");
    KeptValid(t, u.rules, kept);
    if Plain(r.target.arg) {
      DescriptionReplays(t, u);
    } else {
      LostForGood(t, u, kept, r);
    }
  }

  lemma KeptValid(t: Table, rules: seq<Rule>, kept: seq<Rule>)
    requires ValidRules(t, rules) && kept <= rules
    ensures ValidRules(t, kept)
  {
    assert forall i :: 0 <= i < |kept| ==> kept[i] == rules[i];
  }

  // ----- the string over whole histories -----

  predicate SpaceFreeTarget(x: Target) { x.OfFirstArg? ==> ' ' !in x.arg }

  predicate SpaceFreeRules(rules: seq<Rule>) { forall i :: 0 <= i < |rules| ==> SpaceFreeTarget(rules[i].target) }

  ghost predicate LiveTarget(t: Table, s: State, x: Target)
    requires ValidTarget(t, x)
  {
    x.OfFirstArg? ==> First(t.commands[x.name].id, x.arg) in s.points
  }

  /** No category rule has taken back a first argument that is not plain. */
  ghost predicate UnplainLive(t: Table, s: State)
    requires ValidRules(t, s.rules)
  {
    forall i :: 0 <= i < |s.rules| && !PlainTarget(s.rules[i].target) ==> LiveTarget(t, s, s.rules[i].target)
  }

  lemma SpaceFreeOp(t: Table, r: Rule)
    requires PlainTable(t) && ValidRule(t, r) && SpaceFreeTarget(r.target)
    ensures IsOp(RuleOp(r))
  {
    var op := RuleOp(r);
    forall i | 0 <= i < |op|
      ensures op[i] != ' '
    {
      if i > 0 { assert op[i] == RuleText(r)[i - 1]; }
      match r.target
      case OfCommand(name) =>
      case OfSub(name, sub) => PlainPair(name, sub); assert Plain(sub);
      case OfFirstArg(name, arg) => SpaceFreePair(name, arg);
      case OfCategory(category) =>
    }
  }

  lemma SpaceFreePair(a: string, b: string)
    requires Plain(a) && ' ' !in b
    ensures ' ' !in a + "|" + b
  {
    var s := a + "|" + b;
    forall i | 0 <= i < |s|
      ensures s[i] != ' '
    {
      if i < |a| {
        assert s[i] == a[i] && PlainChar(a[i]);
      } else if i > |a| {
        assert s[i] == b[i - |a| - 1];
      }
    }
  }

  lemma SpaceFreeOps(t: Table, rules: seq<Rule>)
    requires PlainTable(t) && ValidRules(t, rules) && SpaceFreeRules(rules)
    ensures AreOps(RuleOps(rules))
  {
    hide PlainTable, ValidRule, IsOp, SpaceFreeTarget;
    forall i | 0 <= i < |rules| ensures IsOp(RuleOps(rules)[i]) { SpaceFreeOp(t, rules[i]); }
  }

  lemma {:induction false} LongestUnplain(rules: seq<Rule>) returns (k: nat)
    requires !PlainRules(rules)
    ensures k < |rules| && !PlainTarget(rules[k].target)
    ensures forall i :: 0 <= i < |rules| && !PlainTarget(rules[i].target) ==> |RuleOp(rules[i])| <= |RuleOp(rules[k])|
  {
    hide PlainTarget, RuleOp;
    var init, n := rules[..|rules| - 1], |rules| - 1;
    assert forall i :: 0 <= i < n ==> init[i] == rules[i];
    if PlainRules(init) {
      k := n;
    } else {
      k := LongestUnplain(init);
      if !PlainTarget(rules[n].target) && |RuleOp(rules[n])| > |RuleOp(rules[k])| { k := n; }
    }
  }

  /** An operation that allows a first argument spells it: same length, same separators and quotes. */
  lemma AllowsSpells(t: Table, op: string, name: string, arg: string)
    requires PlainTable(t) && name in t.commands && Allows(t, op, name, arg) && ' ' !in arg && !Plain(arg)
    ensures |op| == |name| + |arg| + 2 && ' ' !in op && !Plain(op)
  {
    hide PlainTable, Plain, Allows, Lower;
    AllowsText(t, op, name, arg);
    var text, bar := op[1..], |name|;
    assert Plain(name) by { NamePlain(t, name); }
    LowerPlain(text[..bar]);
    LowerPlain(text[bar + 1..]);
    assert op == [op[0]] + text[..bar] + "|" + text[bar + 1..];
    SpelledOut(op[0], text[..bar], text[bar + 1..]);
  }

  lemma NamePlain(t: Table, name: string)
    requires PlainTable(t) && name in t.commands
    ensures Plain(name)
  {
  }

  lemma AllowsText(t: Table, op: string, name: string, arg: string)
    requires Allows(t, op, name, arg)
    ensures |op| == |name| + |arg| + 2 && (op[0] == '+' || op[0] == '-') && op[1 + |name|] == '|'
    ensures name == Lower(op[1..][..|name|]) && arg == Lower(op[1..][|name| + 1..])
  {
    var text := op[1..];
    var bar := LastBar(text);
    assert ParseTarget(t, op[0] == '+', text) == Some(OfFirstArg(name, arg));
    assert name == Lower(text[..bar]) && arg == Lower(text[bar + 1..]);
  }

  lemma LowerPlain(s: string)
    ensures Plain(Lower(s)) <==> Plain(s)
    ensures ' ' in Lower(s) <==> ' ' in s
  {
    var l := Lower(s);
    forall i | 0 <= i < |s|
      ensures PlainChar(l[i]) == PlainChar(s[i]) && (l[i] == ' ' <==> s[i] == ' ')
    {
      assert l[i] == LowerChar(s[i]);
    }
    assert Plain(s) ==> forall i :: 0 <= i < |l| ==> PlainChar(s[i]);
    assert Plain(l) ==> forall i :: 0 <= i < |s| ==> PlainChar(l[i]);
  }

  lemma SpelledOut(sign: char, name: string, arg: string)
    requires (sign == '+' || sign == '-') && Plain(name) && ' ' !in arg && !Plain(arg)
    ensures var op := [sign] + name + "|" + arg; ' ' !in op && !Plain(op)
  {
    var op := [sign] + name + "|" + arg;
    assert op == [sign] + (name + "|" + arg);
    SpaceFreePair(name, arg);
    PlainPair(name, arg);
    PlainTail(op);
    assert op[1..] == name + "|" + arg;
  }

  /** No token of the string allows the longest first argument that is not plain. */
  lemma NoTokenAllows(t: Table, rules: seq<Rule>, k: nat, ops: seq<string>, i: nat)
    requires PlainTable(t) && ValidRules(t, rules) && SpaceFreeRules(rules) && k < |rules|
    requires !PlainTarget(rules[k].target)
    requires forall j :: 0 <= j < |rules| && !PlainTarget(rules[j].target) ==> |RuleOp(rules[j])| <= |RuleOp(rules[k])|
    requires SdsArgs.SplitArgs(Join(RuleOps(rules))) == Some(ops) && i < |ops|
    ensures !Allows(t, ops[i], rules[k].target.name, rules[k].target.arg)
  {
    hide PlainTable, ValidRule, SdsArgs.SplitArgs, Parse, Join, Plain, RuleText, IsOp, Bounded;
    var limit := |RuleOp(rules[k])|;
    forall j | 0 <= j < |rules|
      ensures Plain(RuleOps(rules)[j]) || |RuleOps(rules)[j]| <= limit
    {
      PlainRuleOp(t, rules[j]);
    }
    SpaceFreeOps(t, rules);
    JoinBounded(RuleOps(rules), limit);
    TokensBounded(Join(RuleOps(rules)), limit);
    assert ops[i] in ops;
    var x := rules[k].target;
    assert SpaceFreeTarget(rules[k].target);
    OpLength(rules[k]);
    NameOf(t, rules[k]);
    if Allows(t, ops[i], x.name, x.arg) { AllowsSpells(t, ops[i], x.name, x.arg); }
  }

  lemma OpLength(r: Rule)
    requires r.target.OfFirstArg?
    ensures |RuleOp(r)| == |r.target.name| + |r.target.arg| + 2
  {
  }

  lemma NameOf(t: Table, r: Rule)
    requires ValidRule(t, r) && r.target.OfFirstArg?
    ensures r.target.name in t.commands
  {
  }

  /** Whatever happened before: as long as no first argument holds a space, the string replays to the selector
      exactly if all first arguments in it are plain. One that a category rule has taken back is left out. */
  lemma ReplaysExactly(t: Table, s: State)
    requires ValidTable(t) && PlainTable(t) && Inv(t, s) && SpaceFreeRules(s.rules) && UnplainLive(t, s)
    ensures Replays(t, s) <==> PlainRules(s.rules)
  {
    hide ValidTable, PlainTable, PlainTarget, SdsArgs.SplitArgs, Parse, Join, Run, RuleOp, Rebuilt, SpaceFreeRules;
    if PlainRules(s.rules) {
      DescriptionReplays(t, s);
    } else if SdsArgs.SplitArgs(Join(RuleOps(s.rules))).Some? {
      var k := LongestUnplain(s.rules);
      var ops := SdsArgs.SplitArgs(Join(RuleOps(s.rules))).value;
      var all := [AllOp(Future(s))] + ops;
      UnplainIs(t, s, k);
      var name, arg := s.rules[k].target.name, s.rules[k].target.arg;
      ParseAll(t, Future(s));
      forall i | 0 <= i < |all| ensures !Allows(t, all[i], name, arg) {
        if i > 0 { NoTokenAllows(t, s.rules, k, ops, i - 1); }
      }
      NeverAllowed(t, all, name, arg);
    }
  }

  lemma UnplainIs(t: Table, s: State, k: nat)
    requires ValidRules(t, s.rules) && UnplainLive(t, s) && k < |s.rules| && !PlainTarget(s.rules[k].target)
    ensures var x := s.rules[k].target;
      x.OfFirstArg? && x.name in t.commands && First(t.commands[x.name].id, x.arg) in s.points
  {
    hide Plain;
  }

  /** A rule about a command takes its first arguments out of the string again, if none held a space: with no
      other first argument in the way, the selector replays from then on. */
  lemma CommandRuleCleans(t: Table, s: State, r: Rule)
    requires ValidTable(t) && PlainTable(t) && Inv(t, s) && ValidRule(t, r) && r.target.OfCommand?
    requires SpaceFreeRules(s.rules)
    requires forall i :: 0 <= i < |s.rules| && !PlainTarget(s.rules[i].target) ==>
               s.rules[i].target.name == r.target.name
    ensures PlainRules(Changed(t, s, r).rules) && Replays(t, Changed(t, s, r))
  {
    hide ValidTable, PlainTable, Replays, PlainTarget, RuleEffect, Do, Inv, SpaceFreeRules;
    ChangedKeeps(t, s, r);
    CommandMatches(s.rules, r.target.name);
    assert PlainTarget(r.target) by { CommandPlain(r.target); }
    DescriptionReplays(t, Changed(t, s, r));
  }

  lemma CommandPlain(x: Target)
    requires x.OfCommand?
    ensures PlainTarget(x)
  {
  }

  lemma {:induction false} CommandMatches(rules: seq<Rule>, name: string)
    requires forall i :: 0 <= i < |rules| && !PlainTarget(rules[i].target) ==> rules[i].target.name == name
    ensures PlainRules(RemoveRules(rules, name))
  {
    hide Plain;
    if rules != [] {
      var init, last := rules[..|rules| - 1], rules[|rules| - 1];
      CommandMatches(init, name);
      if last.target.OfFirstArg? && last.target.name == name {
        assert RuleText(last)[..|name| + 1] == name + "|";
        assert name + "|" <= RuleText(last);
      }
    }
  }

  // ----- checking a command -----

  /** ACLSelectorCheckCmd(), first part: the command is allowed, or its first argument is. */
  ghost predicate MayRun(s: State, id: nat, firstArg: Option<string>) {
    s.all || Bit(id) in s.points || (firstArg.Some? && First(id, Lower(firstArg.value)) in s.points)
  }

  /** The ALLCOMMANDS shortcut decides nothing the bitmap would not: two selectors with the same permissions
      take the same decisions, whatever their flags. */
  lemma FlagIsAShortcut(t: Table, s: State, r: State, id: nat, firstArg: Option<string>)
    requires Inv(t, s) && Inv(t, r) && s.points == r.points && id < BITS
    ensures MayRun(s, id, firstArg) <==> MayRun(r, id, firstArg)
    ensures MayRun(s, id, firstArg) <==>
            Bit(id) in s.points || (firstArg.Some? && First(id, Lower(firstArg.value)) in s.points)
  {
    assert Bit(id) in Everything(true);
  }

  lemma {:induction false} BitsFit(t: Table, all: bool, rules: seq<Rule>, id: nat)
    requires ValidTable(t) && ValidRules(t, rules) && Bit(id) in Rebuilt(t, all, rules)
    ensures id < BITS
  {
    hide ValidTable, ValidRule, RuleEffect;
    if rules != [] {
      var init, last := rules[..|rules| - 1], rules[|rules| - 1];
      RuleSparesReserved(t, last);
      OnWithinScope(t, last);
      if Bit(id) in Rebuilt(t, all, init) { BitsFit(t, all, init, id); }
    }
  }

  /** For every id: two selectors with the same permissions decide alike exactly if the id has a bit, or the
      flags are the same, or the first argument is allowed anyway. Past the bitmap the flag decides. */
  lemma FlagDecides(t: Table, s: State, r: State, id: nat, firstArg: Option<string>)
    requires ValidTable(t) && Inv(t, s) && Inv(t, r) && s.points == r.points
    ensures var first := firstArg.Some? && First(id, Lower(firstArg.value)) in s.points;
      && ((MayRun(s, id, firstArg) <==> MayRun(r, id, firstArg)) <==> id < BITS || s.all == r.all || first)
      && (id >= BITS ==> Bit(id) !in s.points && (MayRun(s, id, firstArg) <==> s.all || first))
  {
    hide ValidTable, Rebuilt, Compact;
    if id < BITS {
      FlagIsAShortcut(t, s, r, id, firstArg);
    } else {
      NoBitPast(t, s, id);
    }
  }

  lemma NoBitPast(t: Table, s: State, id: nat)
    requires ValidTable(t) && Inv(t, s) && id >= BITS
    ensures Bit(id) !in s.points
  {
    hide ValidTable, Rebuilt, Compact;
    if Bit(id) in s.points { BitsFit(t, Future(s), s.rules, id); }
  }
}
