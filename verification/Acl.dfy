/** The ACL selector as acl.c keeps it: a bitmap, a table of first arguments, a flag and a string, all
    updated in place. */
module Acl {
  import opened CString
  import opened AclRules
  import opened AclText
  import opened AclReplay
  import opened AclState
  import SdsArgs

  predicate Holds(args: seq<string>, arg: string) { exists i :: 0 <= i < |args| && Lower(args[i]) == arg }

  ghost predicate InPoints(allowed: set<nat>, firstArgs: map<nat, seq<string>>, p: Point) {
    match p
    case Bit(id) => id in allowed
    case First(id, arg) => id in firstArgs && Holds(firstArgs[id], arg)
  }

  ghost function PointsOf(allowed: set<nat>, firstArgs: map<nat, seq<string>>): iset<Point> {
    iset p: Point | InPoints(allowed, firstArgs, p)
  }

  /** Only commands without subcommands carry first arguments. */
  ghost predicate OnlyCarriers(t: Table, firstArgs: map<nat, seq<string>>) {
    forall id :: id in firstArgs ==> Carrier(t, id)
  }

  /** The bits and first arguments after the same change to two groups of commands. */
  lemma OverwriteBoth(t: Table, p: iset<Point>, a: iset<nat>, b: iset<nat>, x: iset<nat>, y: iset<nat>, allow: bool)
    ensures Do(Do(p, Overwrite(t, a, x, allow)), Overwrite(t, b, y, allow)) == Do(p, Overwrite(t, a + b, x + y, allow))
  {}

  lemma ClearsAny(t: Table, ids: iset<nat>, resets: iset<nat>, allow: bool)
    ensures ClearsABit(Overwrite(t, ids, resets, allow)) <==> !allow && ids != iset{}
  {
    var e := Overwrite(t, ids, resets, allow);
    if !allow && ids != iset{} {
      var id :| id in ids;
      assert Bit(id) in e.scope && Bit(id) !in e.on;
    }
  }

  class Selector {
    const t: Table
    var allowed: set<nat>
    var all: bool
    var firstArgs: map<nat, seq<string>>
    var text: string
    /** The rules, and whether the string still stands for them: since the last whole-set operation no first
        argument held a space. */
    ghost var rules: seq<Rule>
    ghost var clean: bool

    ghost function Points(): iset<Point>
      reads this
    {
      PointsOf(allowed, firstArgs)
    }

    ghost function Abs(): State
      reads this
    {
      State(Points(), all, rules)
    }

    ghost predicate Valid()
      reads this
    {
      && ValidTable(t) && PlainTable(t)
      && OnlyCarriers(t, firstArgs)
      && Inv(t, Abs())
      && (clean ==> SpaceFreeRules(rules) && text == Join(RuleOps(rules)))
    }

    constructor (t: Table)
      requires ValidTable(t) && PlainTable(t)
      ensures Valid() && Abs() == Fresh() && clean && this.t == t
    {
      this.t := t;
      allowed, all, firstArgs, text := {}, false, map[], "";
      rules, clean := [], true;
      new;
      assert Points() == iset{};
      FreshInv(t);
    }

    /** ACLSetSelectorCommandBit() */
    method SetCommandBit(id: nat, value: bool)
      modifies `allowed, `all
      ensures Points() == Do(old(Points()), Overwrite(t, Fitting(iset{id}), iset{}, value))
      ensures all == (old(all) && (value || id >= BITS))
    {
      if id >= BITS {
        assert Points() == Do(old(Points()), Overwrite(t, Fitting(iset{id}), iset{}, value));
        return;
      }
      assert Fitting(iset{id}) == iset{id};
      if value {
        allowed := allowed + {id};
      } else {
        allowed := allowed - {id};
        all := false;
      }
      assert Points() == Do(old(Points()), Overwrite(t, iset{id}, iset{}, value));
    }

    /** ACLResetFirstArgsForCommand() */
    method ResetFirstArgs(id: nat)
      requires OnlyCarriers(t, firstArgs)
      modifies `firstArgs
      ensures OnlyCarriers(t, firstArgs)
      ensures Points() == Do(old(Points()), Overwrite(t, iset{}, iset{id}, true))
    {
      firstArgs := firstArgs - {id};
      assert Points() == Do(old(Points()), Overwrite(t, iset{}, iset{id}, true));
    }

    /** ACLChangeSelectorPerm(). Ids past the bitmap have no bit, and none in the table of first arguments. */
    method ChangePerm(id: nat, subs: Option<map<string, SubCommand>>, allow: bool)
      requires OnlyCarriers(t, firstArgs) && (id < BITS || firstArgs == map[])
      modifies `allowed, `all, `firstArgs
      ensures OnlyCarriers(t, firstArgs)
      ensures Points() == Do(old(Points()), Overwrite(t, Fitting(CommandIds(id, subs)), iset{id}, allow))
      ensures all == (old(all) && (allow || Fitting(CommandIds(id, subs)) == iset{}))
    {
      hide PointsOf, Do, Overwrite, Fitting, CommandIds, OnlyCarriers, IdsSoFar;
      SetCommandBit(id, allow);
      ResetFirstArgs(id);
      ghost var ids: iset<nat> := Fitting(iset{id});
      OneCommand(t, old(Points()), id, allow);
      OneFitting(id);
      NoIdsYet(id, subs);
      if subs.Some? {
        var todo := subs.value.Keys;
        while todo != {}
          invariant todo <= subs.value.Keys && OnlyCarriers(t, firstArgs)
          invariant ids == IdsSoFar(id, subs.value, subs.value.Keys - todo)
          invariant Points() == Do(old(Points()), Overwrite(t, ids, iset{id}, allow))
          invariant all == (old(all) && (allow || ids == iset{}))
          decreases |todo|
        {
          var s :| s in todo;
          var sub := subs.value[s].id;
          SetCommandBit(sub, allow);
          OverwriteBoth(t, old(Points()), ids, Fitting(iset{sub}), iset{id}, iset{}, allow);
          assert iset{id} + iset{} == iset{id};
          IdsNext(id, subs.value, todo, s);
          BothEmpty(ids, Fitting(iset{sub}));
          OneFitting(sub);
          ids := ids + Fitting(iset{sub});
          todo := todo - {s};
        }
        assert subs.value.Keys - todo == subs.value.Keys;
      }
      AllIds(id, subs);
    }

    /** What ACLSetSelectorCommandBitsForCategory() does for one command and its subcommands. */
    method ChangeInCategory(c: CommandInfo, category: string, allow: bool)
      requires OnlyCarriers(t, firstArgs) && c.id < BITS
      requires c.subs.Some? ==> forall s :: s in c.subs.value ==> c.subs.value[s].id < BITS
      modifies `allowed, `all, `firstArgs
      ensures OnlyCarriers(t, firstArgs)
      ensures Points() == Do(old(Points()), Overwrite(t, SetIds(c, category), ResetIds(c, category), allow))
      ensures all == (old(all) && (allow || SetIds(c, category) == iset{}))
    {
      hide PointsOf, Do, Overwrite, CommandIds, OnlyCarriers, CategoryIds, SetIds, ResetIds, Fitting;
      ghost var ids: iset<nat> := iset{};
      ghost var resets: iset<nat> := iset{};
      NoCommand(t, old(Points()), allow);
      if category in c.categories {
        ChangePerm(c.id, c.subs, allow);
        AllFit(c.id, c.subs);
        ids, resets := CommandIds(c.id, c.subs), iset{c.id};
      }
      ghost var own, reset := ids, resets;
      NoCategoryIds(own, reset, c, category);
      if c.subs.Some? {
        var todo := c.subs.value.Keys;
        while todo != {}
          invariant todo <= c.subs.value.Keys && OnlyCarriers(t, firstArgs)
          invariant ids == CategoryIds(own, c.subs.value, c.subs.value.Keys - todo, category)
          invariant resets == CategoryIds(reset, c.subs.value, c.subs.value.Keys - todo, category)
          invariant Points() == Do(old(Points()), Overwrite(t, ids, resets, allow))
          invariant all == (old(all) && (allow || ids == iset{}))
          decreases |todo|
        {
          var s :| s in todo;
          var sub := c.subs.value[s];
          CategoryNext(own, c.subs.value, todo, s, category);
          CategoryNext(reset, c.subs.value, todo, s, category);
          if category in sub.categories {
            ChangePerm(sub.id, None, allow);
            AllFit(sub.id, None);
            OnlyItself(sub.id);
            OverwriteBoth(t, old(Points()), ids, iset{sub.id}, resets, iset{sub.id}, allow);
            BothEmpty(ids, iset{sub.id});
            ids, resets := ids + iset{sub.id}, resets + iset{sub.id};
          }
          todo := todo - {s};
        }
        assert c.subs.value.Keys - todo == c.subs.value.Keys;
      }
      AllCategoryIds(own, reset, c, category);
    }

    /** ACLSetSelectorCommandBitsForCategory() */
    method SetCategoryBits(category: string, allow: bool)
      requires OnlyCarriers(t, firstArgs) && ValidTable(t)
      modifies `allowed, `all, `firstArgs
      ensures OnlyCarriers(t, firstArgs)
      ensures var e := CategoryEffect(t, category, allow);
              Points() == Do(old(Points()), e) && all == (old(all) && !ClearsABit(e))
    {
      hide PointsOf, Do, Overwrite, SetBy, ResetBy, ClearsABit, ValidTable;
      ghost var ids: iset<nat> := iset{};
      ghost var resets: iset<nat> := iset{};
      NoCommand(t, old(Points()), allow);
      var todo := t.commands.Keys;
      while todo != {}
        invariant todo <= t.commands.Keys && OnlyCarriers(t, firstArgs)
        invariant forall i :: i in ids <==> SetAmong(t, t.commands.Keys - todo, i, category)
        invariant forall i :: i in resets <==> ResetAmong(t, t.commands.Keys - todo, i, category)
        invariant Points() == Do(old(Points()), Overwrite(t, ids, resets, allow))
        invariant all == (old(all) && (allow || ids == iset{}))
        decreases |todo|
      {
        var c :| c in todo;
        var info := t.commands[c];
        IdsFit(t, c);
        ChangeInCategory(info, category, allow);
        OverwriteBoth(t, old(Points()), ids, SetIds(info, category), resets, ResetIds(info, category), allow);
        AmongNext(t, todo, c, category);
        BothEmpty(ids, SetIds(info, category));
        ids, resets := ids + SetIds(info, category), resets + ResetIds(info, category);
        todo := todo - {c};
      }
      assert t.commands.Keys - todo == t.commands.Keys;
      AmongAll(t, category);
      assert ids == (iset id: nat | InCategory(t, id, category));
      assert resets == (iset id: nat | OwnInCategory(t, id, category));
      ClearsAny(t, ids, resets, allow);
    }

    /** ACLAddAllowedFirstArg() */
    method AddFirstArg(id: nat, arg: string)
      requires OnlyCarriers(t, firstArgs) && Carrier(t, id)
      modifies `firstArgs
      ensures OnlyCarriers(t, firstArgs)
      ensures Points() == old(Points()) + iset{First(id, Lower(arg))}
    {
      var items := if id in firstArgs then firstArgs[id] else [];
      var i := 0;
      while i < |items|
        invariant 0 <= i <= |items|
        invariant forall k :: 0 <= k < i ==> Lower(items[k]) != Lower(arg)
      {
        if SameIgnoringCase(items[i], arg) {
          assert Points() == old(Points()) + iset{First(id, Lower(arg))};
          return;
        }
        i := i + 1;
      }
      firstArgs := firstArgs[id := items + [arg]];
      HoldsAppend(items, arg);
      assert Points() == old(Points()) + iset{First(id, Lower(arg))};
    }

    /** ACLUpdateCommandRules() */
    method UpdateCommandRules(rule: string, allow: bool, ghost r: Rule)
      requires ValidTable(t) && PlainTable(t) && ValidRule(t, r) && ValidRules(t, rules)
      requires Lower(rule) == RuleText(r) && allow == r.allow
      requires clean ==> SpaceFreeRules(rules) && text == Join(RuleOps(rules))
      modifies `text, `rules, `clean
      ensures rules == UpdateRules(old(rules), r)
      ensures clean == (old(clean) && SpaceFreeTarget(r.target))
      ensures clean ==> SpaceFreeRules(rules) && text == Join(RuleOps(rules))
    {
      hide *;
      var newRule := Lower(rule);
      ghost var before := rules;
      text := RemoveCommandRule(text, newRule, RuleOps(rules));
      if clean { NewText(t, rules, r, text); }
      if |text| > 0 { text := text + " "; }
      text := text + (if allow then "+" else "-") + newRule;
      rules := UpdateRules(rules, r);
      clean := clean && SpaceFreeTarget(r.target);
      if clean { UpdateSpaceFree(before, r); }
    }

    /** The bits and first arguments of a rule. */
    method ApplyTarget(op: string, ghost r: Rule)
      requires OnlyCarriers(t, firstArgs) && ValidTable(t)
      requires Parse(t, op) == Change(r) && ValidRule(t, r)
      modifies `allowed, `all, `firstArgs
      ensures OnlyCarriers(t, firstArgs)
      ensures var e := RuleEffect(t, r);
              Points() == Do(old(Points()), e) && all == (old(all) && !ClearsABit(e))
    {
      hide ValidTable, OnlyCarriers, Parse, ClearsABit, PointsOf, Do, Overwrite;
      var allow := Parse(t, op).rule.allow;
      match Parse(t, op).rule.target
      case OfCommand(name) =>
        var c := t.commands[name];
        IdsFit(t, name);
        ChangePerm(c.id, c.subs, allow);
        AllFit(c.id, c.subs);
        CommandIdsOf(c);
        ClearsAny(t, CommandIds(c.id, c.subs), iset{c.id}, allow);
        assert c.id in CommandIds(c.id, c.subs);
      case OfSub(name, sub) =>
        var id := t.commands[name].subs.value[sub].id;
        IdsFit(t, name);
        ChangePerm(id, None, allow);
        AllFit(id, None);
        assert CommandIds(id, None) == iset{id};
        ClearsAny(t, iset{id}, iset{id}, allow);
        assert id in iset{id};
      case OfFirstArg(name, arg) =>
        var id := t.commands[name].id;
        CarrierOf(t, name);
        OpArgLower(t, op);
        AddFirstArg(id, OpArg(op));
        AddsOnly(old(Points()), First(id, arg));
      case OfCategory(category) =>
        SetCategoryBits(category, allow);
    }

    /** ACLSetSelector(): the selector moves as its abstract value does. */
    method SetSelector(op: string) returns (ok: bool)
      requires Valid()
      modifies this
      ensures Valid()
      ensures Abs() == Step(t, old(Abs()), op)
      ensures !Parse(t, op).NotCommands? ==> (ok <==> !Parse(t, op).Refused?)
      ensures clean == match Parse(t, op)
                       case SetAll(_) => true
                       case Change(r) => old(clean) && SpaceFreeTarget(r.target)
                       case _ => old(clean)
    {
      hide ValidTable, PlainTable, SpaceFreeRules, Inv, Parse, Join, OnlyCarriers, PointsOf;
      StepKeeps(t, Abs(), op);
      ok := true;
      match Parse(t, op)
      case SetAll(allow) =>
        allowed := if allow then Below(BITS) else {};
        all, firstArgs, text := allow, map[], "";
        rules, clean := [], true;
        AllPoints(t, allow);
      case Change(r) =>
        ParseValid(t, op);
        InvRules(t, Abs());
        ApplyTarget(op, r);
        LowerText(t, r);
        UpdateCommandRules(RuleText(r), r.allow, r);
      case NotCommands =>
      case Refused => ok := false;
    }

    /** Operations one after the other, up to the first refused one. */
    method ApplyAll(ops: seq<string>) returns (ok: bool)
      requires Valid()
      modifies this
      ensures Valid()
      ensures ok ==> Abs() == Run(t, old(Abs()), ops)
      ensures (forall i :: 0 <= i < |ops| ==> Parse(t, ops[i]).Change?) ==> ok
    {
      hide ValidTable, PlainTable, SpaceFreeRules, Inv, Parse, Join, OnlyCarriers, PointsOf, Step;
      ok := true;
      var i := 0;
      assert ops[..0] == [];
      while i < |ops|
        invariant 0 <= i <= |ops| && Valid() && Abs() == Run(t, old(Abs()), ops[..i])
      {
        RunNext(t, old(Abs()), ops[..i], ops[i]);
        assert ops[..i] + [ops[i]] == ops[..i + 1];
        ok := SetSelector(ops[i]);
        if !ok { return; }
        i := i + 1;
      }
      ok := true;
      assert ops[..|ops|] == ops;
    }

    /** ACLDescribeSelectorCommandRules(): None stands for its assertions and its panic on a bitmap that
        differs. As long as no first argument held a space, there is a description and it rebuilds the
        selector exactly if the first arguments in the string are plain by now. */
    method Describe() returns (r: Option<string>)
      requires Valid()
      ensures r.Some? ==> r.value == Description(Future(Abs()), text)
      ensures clean && PlainRules(rules) ==> r.Some? && SdsArgs.SplitArgs(r.value) == Some(Described(Abs()))
      ensures clean && UnplainLive(t, Abs()) ==> (r.Some? && Rebuilds(t, r.value, Abs()) <==> PlainRules(rules))
    {
      hide ValidTable, PlainTable, PlainRules, SpaceFreeRules, Inv, Parse, Join, OnlyCarriers, PointsOf, Step, Run;
      hide SdsArgs.SplitArgs, UnplainLive, Rebuilds, Description;
      var future := RESERVED in allowed;
      FutureBit(allowed, firstArgs);
      var fake := new Selector(t);
      var ok := fake.SetSelector(AllOp(future));
      RunOne(t, Fresh(), AllOp(future));
      if clean { DescribesExactly(t, Abs(), text); }
      if clean && PlainRules(rules) { CleanReplay(t, Abs(), text); }
      var argv := SdsArgs.SplitArgs(text);
      if argv.None? { return None; }
      RunConcat(t, Fresh(), [AllOp(future)], argv.value);
      ok := fake.ApplyAll(argv.value);
      if !ok { return None; }
      if clean && PlainRules(rules) { SameBits(allowed, firstArgs, fake.allowed, fake.firstArgs); }
      if fake.allowed != allowed { return None; }
      r := Some(Description(future, text));
    }

    /** ACLSelectorCheckCmd(), the part about the command. For ids past the bitmap the flag alone decides; the
        table of first arguments has no entry for them. The second argument is read only where there are first
        arguments, so never for a subcommand. */
    method CheckCommand(id: nat, noAuth: bool, hasParent: bool, argv: seq<string>) returns (allow: bool)
      requires Valid() && argv != [] && (id < BITS || firstArgs == map[])
      requires hasParent ==> !Carrier(t, id)
      ensures allow <==> noAuth || Bit(id) in Points() || (id >= BITS && all)
                         || (|argv| >= 2 && First(id, Lower(argv[1])) in Points())
      ensures allow <==> noAuth || Bit(id) in Points() || (id >= BITS && all)
                         || (|argv| >= 2 && exists arg :: CaseVariants(argv[1], arg) && First(id, arg) in Points())
    {
      hide ValidTable, PlainTable, Inv, Join, RuleOps, SpaceFreeRules;
      if |argv| >= 2 { AnySpelling(allowed, firstArgs, id, argv[1]); }
      if id < BITS { FlagIsAShortcut(t, Abs(), Abs(), id, None); } else { NoBitPast(t, Abs(), id); }
      if all || noAuth || (id < BITS && id in allowed) { return true; }
      if |argv| < 2 || id !in firstArgs { return false; }
      var i := 0;
      while i < |firstArgs[id]|
        invariant 0 <= i <= |firstArgs[id]|
        invariant forall k :: 0 <= k < i ==> Lower(firstArgs[id][k]) != Lower(argv[1])
      {
        var index := if hasParent then 2 else 1;
        if SameIgnoringCase(argv[index], firstArgs[id][i]) { return true; }
        i := i + 1;
      }
      return false;
    }
  }

  /** A first argument is in the table exactly if one spelled alike but for its case is. */
  lemma AnySpelling(allowed: set<nat>, firstArgs: map<nat, seq<string>>, id: nat, arg: string)
    ensures var points := PointsOf(allowed, firstArgs);
      First(id, Lower(arg)) in points <==> exists x :: CaseVariants(arg, x) && First(id, x) in points
  {
    hide Lower, CaseVariants;
    var points := PointsOf(allowed, firstArgs);
    LowerTwice(arg);
    SameExactlyVariants(arg, Lower(arg));
    forall x | CaseVariants(arg, x) && First(id, x) in points ensures x == Lower(arg) {
      SameExactlyVariants(arg, x);
      var i :| 0 <= i < |firstArgs[id]| && Lower(firstArgs[id][i]) == x;
      LowerTwice(firstArgs[id][i]);
    }
  }

  lemma FutureBit(allowed: set<nat>, firstArgs: map<nat, seq<string>>)
    ensures Bit(RESERVED) in PointsOf(allowed, firstArgs) <==> RESERVED in allowed
  {}

  lemma SameBits(a: set<nat>, x: map<nat, seq<string>>, b: set<nat>, y: map<nat, seq<string>>)
    ensures PointsOf(a, x) == PointsOf(b, y) ==> a == b
  {
    if PointsOf(a, x) == PointsOf(b, y) {
      assert forall id: nat :: id in a <==> Bit(id) in PointsOf(a, x);
      assert forall id: nat :: id in b <==> Bit(id) in PointsOf(b, y);
    }
  }

  lemma RunOne(t: Table, s: State, op: string)
    ensures Run(t, s, [op]) == Step(t, s, op)
  {
    hide Step;
    assert [op][..0] == [];
  }

  lemma {:induction false} RunConcat(t: Table, s: State, a: seq<string>, b: seq<string>)
    ensures Run(t, s, a + b) == Run(t, Run(t, s, a), b)
  {
    hide Step;
    if b == [] {
      assert a + b == a;
    } else {
      var n := |b| - 1;
      assert (a + b)[..|a| + n] == a + b[..n];
      RunConcat(t, s, a, b[..n]);
    }
  }

  lemma RunNext(t: Table, s: State, ops: seq<string>, op: string)
    ensures Run(t, s, ops + [op]) == Step(t, Run(t, s, ops), op)
  {
    hide Step;
    assert (ops + [op])[..|ops|] == ops;
  }

  function Description(all: bool, text: string): string { AllOp(all) + (if text != "" then " " + text else "") }

  /** Applying the operations of a description to a fresh selector is accepted and gives the permissions. */
  ghost predicate Rebuilds(t: Table, description: string, s: State) {
    var ops := SdsArgs.SplitArgs(description);
    && ops.Some?
    && (forall i :: 0 <= i < |ops.value| ==> !Parse(t, ops.value[i]).Refused?)
    && Run(t, Fresh(), ops.value).points == s.points
  }

  lemma SplitDescription(all: bool, text: string)
    ensures SdsArgs.SplitArgs(Description(all, text))
         == match SdsArgs.SplitArgs(text)
            case None => None
            case Some(ops) => Some([AllOp(all)] + ops)
  {
    hide SdsArgs.SplitArgs;
    var rest := if text != "" then " " + text else "";
    SplitOp(AllOp(all), rest);
    SdsArgs.SplitAfterToken(rest);
    if text != "" { assert rest[1..] == text; }
  }

  lemma RebuildsIsReplays(t: Table, s: State, text: string)
    requires text == Join(RuleOps(s.rules))
    ensures Rebuilds(t, Description(Future(s), text), s) <==> Replays(t, s)
  {
    hide SdsArgs.SplitArgs, Parse, Join, Run, Description, AllOp;
    SplitDescription(Future(s), text);
    ParseAll(t, Future(s));
    if SdsArgs.SplitArgs(text).Some? {
      var ops := SdsArgs.SplitArgs(text).value;
      var all := [AllOp(Future(s))] + ops;
      assert forall i :: 0 <= i < |ops| ==> all[i + 1] == ops[i];
      assert forall i :: 0 < i < |all| ==> all[i] == ops[i - 1];
    }
  }

  lemma DescribesExactly(t: Table, s: State, text: string)
    requires ValidTable(t) && PlainTable(t) && Inv(t, s) && SpaceFreeRules(s.rules) && text == Join(RuleOps(s.rules))
    ensures UnplainLive(t, s) ==> (Rebuilds(t, Description(Future(s), text), s) <==> PlainRules(s.rules))
  {
    hide ValidTable, PlainTable, SpaceFreeRules, PlainRules, Join, Rebuilds, Replays, UnplainLive, Description;
    RebuildsIsReplays(t, s, text);
    if UnplainLive(t, s) { ReplaysExactly(t, s); }
  }

  /** What a clean selector's string splits into, what that rebuilds, and what the description splits into. */
  lemma CleanReplay(t: Table, s: State, text: string)
    requires ValidTable(t) && PlainTable(t) && Inv(t, s) && PlainRules(s.rules) && text == Join(RuleOps(s.rules))
    ensures SdsArgs.SplitArgs(text) == Some(RuleOps(s.rules))
    ensures Run(t, Fresh(), [AllOp(Future(s))] + RuleOps(s.rules)).points == s.points
    ensures forall i :: 0 <= i < |s.rules| ==> Parse(t, RuleOps(s.rules)[i]).Change?
    ensures SdsArgs.SplitArgs(Description(Future(s), text)) == Some(Described(s))
  {
    hide ValidTable, PlainTable, PlainRules, SdsArgs.SplitArgs, Parse, Join, Step, Rebuilt;
    SplitRules(t, s.rules);
    ReplayPrefix(t, Fresh(), Future(s), s.rules);
    forall i | 0 <= i < |s.rules| ensures Parse(t, RuleOps(s.rules)[i]).Change? { ParseRule(t, s.rules[i]); }
    SplitDescription(Future(s), text);
  }

  /** ACLGetCommandID(): names to ids, counting up and skipping the reserved bit. */
  class CommandIdTable {
    var ids: map<string, nat>
    var nextId: nat

    ghost predicate Valid()
      reads this
    {
      && nextId != RESERVED
      && (forall n :: n in ids ==> ids[n] < nextId && ids[n] != RESERVED)
      && (forall n, m :: n in ids && m in ids && ids[n] == ids[m] ==> n == m)
    }

    constructor ()
      ensures Valid() && ids == map[]
    {
      ids, nextId := map[], 0;
    }

    /** No two names share an id, a name keeps its id, and no name ever gets the reserved bit. */
    method GetCommandId(name: string) returns (id: nat)
      requires Valid()
      modifies this
      ensures Valid()
      ensures id != RESERVED && Lower(name) in ids && ids[Lower(name)] == id
      ensures old(ids).Keys <= ids.Keys <= old(ids).Keys + {Lower(name)}
      ensures forall n :: n in old(ids) ==> ids[n] == old(ids)[n]
      ensures forall n :: CaseVariants(n, name) ==> Lower(n) in ids && ids[Lower(n)] == id
    {
      hide Lower, CaseVariants;
      forall n | CaseVariants(n, name) ensures Lower(n) == Lower(name) { SameExactlyVariants(n, name); }
      var lower := Lower(name);
      if lower in ids { return ids[lower]; }
      ids := ids[lower := nextId];
      id := nextId;
      nextId := nextId + 1;
      if nextId == RESERVED { nextId := nextId + 1; }
    }
  }

  lemma CommandIdsOf(c: CommandInfo)
    ensures CommandIds(c.id, c.subs) == (iset id: nat | id == c.id || HasSub(c, id))
  {}

  /** The first argument as the operation spells it. */
  function OpArg(op: string): string {
    if op != "" && '|' in op[1..] then op[1..][LastBar(op[1..]) + 1..] else ""
  }

  lemma OpArgLower(t: Table, op: string)
    requires Parse(t, op).Change? && Parse(t, op).rule.target.OfFirstArg?
    ensures Lower(OpArg(op)) == Parse(t, op).rule.target.arg
  {
    assert ParseTarget(t, op[0] == '+', op[1..]) == Some(Parse(t, op).rule.target);
  }

  lemma AddsOnly(p: iset<Point>, x: Point)
    requires x.First?
    ensures Do(p, Effect(iset{x}, iset{x})) == p + iset{x}
    ensures !ClearsABit(Effect(iset{x}, iset{x}))
  {}

  lemma LowerText(t: Table, r: Rule)
    requires ValidTable(t) && ValidRule(t, r)
    ensures Lower(RuleText(r)) == RuleText(r)
  {
    match r.target
    case OfCommand(name) => assert IsName(name);
    case OfSub(name, sub) => assert IsName(name) && IsName(sub); LowerOfPair(name, sub);
    case OfFirstArg(name, arg) => assert IsName(name); LowerOfPair(name, arg);
    case OfCategory(category) => LowerConcat("@", category);
  }

  lemma AllPoints(t: Table, allow: bool)
    ensures PointsOf(if allow then Below(BITS) else {}, map[]) == Everything(allow)
    ensures OnlyCarriers(t, map[]) && SpaceFreeRules([]) && RuleOps([]) == [] && Join([]) == ""
  {}

  lemma {:induction false} RemovedOps(t: Table, rules: seq<Rule>, text: string)
    requires PlainTable(t) && ValidRules(t, rules) && SpaceFreeRules(rules)
    ensures AreOps(RuleOps(rules))
    ensures RemoveOps(RuleOps(rules), text) == RuleOps(RemoveRules(rules, text))
  {
    hide PlainTable, ValidRule, SpaceFreeTarget, Matches, RuleText, IsOp;
    if rules != [] {
      var init, last := rules[..|rules| - 1], rules[|rules| - 1];
      RemovedOps(t, init, text);
      SpaceFreeOp(t, last);
      var ops := RuleOps(rules);
      assert ops[..|ops| - 1] == RuleOps(init) && ops[|ops| - 1] == RuleOp(last);
      assert RuleOp(last)[1..] == RuleText(last);
      var kept := RemoveRules(init, text);
      assert (kept + [last])[..|kept|] == kept;
    }
  }

  lemma NewText(t: Table, rules: seq<Rule>, r: Rule, left: string)
    requires PlainTable(t) && ValidRules(t, rules) && SpaceFreeRules(rules)
    requires AreOps(RuleOps(rules)) ==> left == Join(RemoveOps(RuleOps(rules), RuleText(r)))
    ensures (if |left| > 0 then left + " " else left) + (if r.allow then "+" else "-") + RuleText(r)
         == Join(RuleOps(UpdateRules(rules, r)))
  {
    hide PlainTable, ValidRules, SpaceFreeRules, RuleText, Join, RemoveOps, RemoveRules;
    var kept := RemoveRules(rules, RuleText(r));
    RemovedOps(t, rules, RuleText(r));
    RemoveOpsKeeps(RuleOps(rules), RuleText(r));
    TextStart(RuleOps(kept));
    JoinedWith(kept, r);
    SignThenText(left, r);
  }

  lemma SignThenText(left: string, r: Rule)
    ensures left + (if r.allow then "+" else "-") + RuleText(r) == left + RuleOp(r)
    ensures left + " " + (if r.allow then "+" else "-") + RuleText(r) == left + " " + RuleOp(r)
  {
    hide RuleText;
  }

  lemma JoinedWith(kept: seq<Rule>, r: Rule)
    ensures Join(RuleOps(kept + [r])) == (if kept == [] then "" else Join(RuleOps(kept)) + " ") + RuleOp(r)
  {
    assert (kept + [r])[..|kept|] == kept;
    JoinAppend(RuleOps(kept), RuleOp(r));
  }

  lemma UpdateSpaceFree(rules: seq<Rule>, r: Rule)
    requires SpaceFreeRules(rules) && SpaceFreeTarget(r.target)
    ensures SpaceFreeRules(UpdateRules(rules, r))
  {
    RemoveSpaceFree(rules, RuleText(r));
  }

  lemma {:induction false} RemoveSpaceFree(rules: seq<Rule>, text: string)
    requires SpaceFreeRules(rules)
    ensures SpaceFreeRules(RemoveRules(rules, text))
  {
    hide Matches, RuleText, SpaceFreeTarget;
    if rules != [] { RemoveSpaceFree(rules[..|rules| - 1], text); }
  }

  function Below(n: nat): (s: set<nat>)
    ensures forall i: nat :: i in s <==> i < n
  {
    if n == 0 then {} else Below(n - 1) + {n - 1}
  }

  lemma InvRules(t: Table, s: State)
    requires Inv(t, s)
    ensures ValidRules(t, s.rules)
  {}

  // ----- loops over dictionaries -----

  ghost function CommandIds(id: nat, subs: Option<map<string, SubCommand>>): iset<nat> {
    iset i: nat | i == id || (subs.Some? && SubAmong(subs.value, subs.value.Keys, i))
  }

  /** The ids with a bit of their own. */
  ghost function Fitting(ids: iset<nat>): iset<nat> { iset i | i in ids && i < BITS }

  lemma OneFitting(id: nat)
    ensures Fitting(iset{id}) == iset{} <==> id >= BITS
  {
    assert id in iset{id};
    assert id < BITS ==> id in Fitting(iset{id});
  }

  lemma AllFit(id: nat, subs: Option<map<string, SubCommand>>)
    requires id < BITS && (subs.Some? ==> forall s :: s in subs.value ==> subs.value[s].id < BITS)
    ensures Fitting(CommandIds(id, subs)) == CommandIds(id, subs) != iset{}
  {
    assert id in CommandIds(id, subs);
  }

  ghost predicate SubAmong(subs: map<string, SubCommand>, names: set<string>, id: nat) {
    exists s :: s in names && s in subs && subs[s].id == id
  }

  /** The bits a command and some of its subcommands have. */
  ghost function IdsSoFar(id: nat, subs: map<string, SubCommand>, names: set<string>): iset<nat> {
    iset i: nat | i < BITS && (i == id || SubAmong(subs, names, i))
  }

  lemma NoIdsYet(id: nat, subs: Option<map<string, SubCommand>>)
    ensures subs.Some? ==> IdsSoFar(id, subs.value, subs.value.Keys - subs.value.Keys) == Fitting(iset{id})
  {
  }

  lemma AllIds(id: nat, subs: Option<map<string, SubCommand>>)
    ensures subs.Some? ==> IdsSoFar(id, subs.value, subs.value.Keys) == Fitting(CommandIds(id, subs))
    ensures subs.None? ==> Fitting(iset{id}) == Fitting(CommandIds(id, subs))
  {
  }

  lemma IdsNext(id: nat, subs: map<string, SubCommand>, todo: set<string>, s: string)
    requires s in todo && todo <= subs.Keys
    ensures IdsSoFar(id, subs, subs.Keys - (todo - {s}))
         == IdsSoFar(id, subs, subs.Keys - todo) + Fitting(iset{subs[s].id})
  {
    assert s in subs.Keys - (todo - {s});
  }

  ghost predicate SubCategoryAmong(subs: map<string, SubCommand>, names: set<string>, id: nat, category: string) {
    exists s :: s in names && s in subs && subs[s].id == id && category in subs[s].categories
  }

  ghost function CategoryIds(own: iset<nat>, subs: map<string, SubCommand>, names: set<string>, category: string)
    : iset<nat>
  {
    iset i: nat | i in own || SubCategoryAmong(subs, names, i, category)
  }

  lemma CategoryNext(own: iset<nat>, subs: map<string, SubCommand>, todo: set<string>, s: string, category: string)
    requires s in todo && todo <= subs.Keys
    ensures CategoryIds(own, subs, subs.Keys - (todo - {s}), category)
         == CategoryIds(own, subs, subs.Keys - todo, category)
            + (if category in subs[s].categories then iset{subs[s].id} else iset{})
  {
    assert s in subs.Keys - (todo - {s});
  }

  lemma NoCategoryIds(own: iset<nat>, reset: iset<nat>, c: CommandInfo, category: string)
    ensures c.subs.Some? ==>
      && CategoryIds(own, c.subs.value, c.subs.value.Keys - c.subs.value.Keys, category) == own
      && CategoryIds(reset, c.subs.value, c.subs.value.Keys - c.subs.value.Keys, category) == reset
  {
  }

  lemma AllCategoryIds(own: iset<nat>, reset: iset<nat>, c: CommandInfo, category: string)
    requires own == (if category in c.categories then CommandIds(c.id, c.subs) else iset{})
    requires reset == (if category in c.categories then iset{c.id} else iset{})
    ensures c.subs.None? ==> own == SetIds(c, category) && reset == ResetIds(c, category)
    ensures c.subs.Some? ==>
      && CategoryIds(own, c.subs.value, c.subs.value.Keys, category) == SetIds(c, category)
      && CategoryIds(reset, c.subs.value, c.subs.value.Keys, category) == ResetIds(c, category)
  {
    CommandIdsOf(c);
  }

  lemma OnlyItself(id: nat)
    ensures CommandIds(id, None) == iset{id} && iset{id} != iset{}
  {
    assert id in iset{id};
  }

  ghost function SetIds(c: CommandInfo, category: string): iset<nat> { iset i: nat | SetBy(c, i, category) }

  ghost function ResetIds(c: CommandInfo, category: string): iset<nat> { iset i: nat | ResetBy(c, i, category) }

  ghost predicate SetAmong(t: Table, names: set<string>, id: nat, category: string) {
    exists c :: c in names && c in t.commands && SetBy(t.commands[c], id, category)
  }

  ghost predicate ResetAmong(t: Table, names: set<string>, id: nat, category: string) {
    exists c :: c in names && c in t.commands && ResetBy(t.commands[c], id, category)
  }

  lemma AmongNext(t: Table, todo: set<string>, c: string, category: string)
    requires c in todo && todo <= t.commands.Keys
    ensures forall i: nat :: SetAmong(t, t.commands.Keys - (todo - {c}), i, category) <==>
                             SetAmong(t, t.commands.Keys - todo, i, category) || SetBy(t.commands[c], i, category)
    ensures forall i: nat :: ResetAmong(t, t.commands.Keys - (todo - {c}), i, category) <==>
                             ResetAmong(t, t.commands.Keys - todo, i, category) || ResetBy(t.commands[c], i, category)
  {
    hide SetBy, ResetBy;
    assert c in t.commands.Keys - (todo - {c});
  }

  lemma AmongAll(t: Table, category: string)
    ensures forall i: nat :: SetAmong(t, t.commands.Keys, i, category) <==> InCategory(t, i, category)
    ensures forall i: nat :: ResetAmong(t, t.commands.Keys, i, category) <==> OwnInCategory(t, i, category)
  {
    hide SetBy, ResetBy;
  }

  lemma IdsFit(t: Table, c: string)
    requires ValidTable(t) && c in t.commands
    ensures t.commands[c].id < BITS
    ensures t.commands[c].subs.Some? ==>
              forall s :: s in t.commands[c].subs.value ==> t.commands[c].subs.value[s].id < BITS
  {
    if t.commands[c].subs.Some? {
      forall s | s in t.commands[c].subs.value ensures t.commands[c].subs.value[s].id < BITS { assert IsName(s); }
    }
  }

  lemma BothEmpty(a: iset<nat>, b: iset<nat>)
    ensures a + b == iset{} <==> a == iset{} && b == iset{}
  {
    assert a <= a + b && b <= a + b;
  }

  lemma OneCommand(t: Table, p: iset<Point>, id: nat, allow: bool)
    ensures Do(Do(p, Overwrite(t, Fitting(iset{id}), iset{}, allow)), Overwrite(t, iset{}, iset{id}, true))
         == Do(p, Overwrite(t, Fitting(iset{id}), iset{id}, allow))
  {}

  lemma NoCommand(t: Table, p: iset<Point>, allow: bool)
    ensures Do(p, Overwrite(t, iset{}, iset{}, allow)) == p
  {}

  lemma HoldsAppend(items: seq<string>, arg: string)
    ensures forall x :: Holds(items + [arg], x) <==> Holds(items, x) || x == Lower(arg)
  {
    hide Lower;
    assert Lower((items + [arg])[|items|]) == Lower(arg);
    forall x | Holds(items, x) ensures Holds(items + [arg], x) {
      var i :| 0 <= i < |items| && Lower(items[i]) == x;
      assert (items + [arg])[i] == items[i];
    }
  }
}
