/** The rules of an ACL selector replay to the selector: whatever sequence of operations built it, the
    compacted rules, applied after +@all or -@all, rebuild the same permissions. */
module AclReplay {
  import opened CString
  import opened AclRules
  import opened AclText

  // ----- covering -----

  lemma SameText(t: Table, x: Target, y: Target)
    requires ValidTable(t) && ValidTarget(t, x) && ValidTarget(t, y) && TargetText(x) == TargetText(y)
    ensures x == y
  {
    ParseTargetText(t, Rule(true, x));
    ParseTargetText(t, Rule(true, y));
  }

  lemma BarAfterName(t: Table, x: Target, y: Target)
    requires ValidTable(t) && ValidTarget(t, x) && ValidTarget(t, y) && TargetText(y) + "|" <= TargetText(x)
    ensures y.OfCommand? && (x.OfSub? || x.OfFirstArg?) && x.name == y.name
  {
    var a, b := TargetText(x), TargetText(y);
    assert a[|b|] == '|' && a[..|b|] == b;
    match x
    case OfCommand(name) =>
    case OfCategory(category) =>
    case OfSub(name, sub) =>
      assert IsName(name) && IsName(sub);
      OneBar(name, sub, |b|);
      assert b == name;
      HasBar(y);
    case OfFirstArg(name, arg) =>
      assert IsName(name);
      OneBar(name, arg, |b|);
      assert b == name;
      HasBar(y);
  }

  lemma OneBar(name: string, arg: string, i: nat)
    requires '|' !in name && '|' !in arg
    requires i < |name + "|" + arg| && (name + "|" + arg)[i] == '|'
    ensures (name + "|" + arg)[..i] == name
  {
    var s := name + "|" + arg;
    forall k | 0 <= k < |name| ensures s[k] != '|' { assert s[k] == name[k]; }
    forall k | |name| < k < |s| ensures s[k] != '|' { assert s[k] == arg[k - |name| - 1]; }
  }

  lemma HasBar(y: Target)
    ensures y.OfSub? || y.OfFirstArg? ==> '|' in TargetText(y)
  {
    if y.OfSub? { assert TargetText(y)[|y.name|] == '|'; }
    if y.OfFirstArg? { assert TargetText(y)[|y.name|] == '|'; }
  }

  /** A new rule overwrites everything the rules it replaces could have set. */
  lemma MatchCovers(t: Table, x: Target, y: Target, a: bool, b: bool)
    requires ValidTable(t) && ValidTarget(t, x) && ValidTarget(t, y) && Matches(TargetText(x), TargetText(y))
    ensures TargetEffect(t, x, a).scope <= TargetEffect(t, y, b).scope
  {
    hide Carrier;
    if TargetText(x) == TargetText(y) {
      SameText(t, x, y);
    } else {
      BarAfterName(t, x, y);
      var c := t.commands[y.name];
      if x.OfSub? {
        assert HasSub(c, c.subs.value[x.sub].id) && !Carrier(t, c.subs.value[x.sub].id);
      } else {
        CarrierOf(t, y.name);
      }
    }
  }

  lemma CarrierOf(t: Table, name: string)
    requires name in t.commands && t.commands[name].subs.None?
    ensures Carrier(t, t.commands[name].id)
  {}

  // ----- rules and what they rebuild -----

  ghost predicate ValidRules(t: Table, rules: seq<Rule>) { forall i :: 0 <= i < |rules| ==> ValidRule(t, rules[i]) }

  ghost function RuleEffect(t: Table, r: Rule): Effect
    requires ValidRule(t, r)
  {
    TargetEffect(t, r.target, r.allow)
  }

  /** The permissions +@all or -@all followed by the rules give. */
  ghost function Rebuilt(t: Table, all: bool, rules: seq<Rule>): iset<Point>
    requires ValidRules(t, rules)
  {
    if rules == [] then Everything(all)
    else Do(Rebuilt(t, all, rules[..|rules| - 1]), RuleEffect(t, rules[|rules| - 1]))
  }

  function RemoveRules(rules: seq<Rule>, text: string): seq<Rule> {
    if rules == [] then []
    else
      var last := rules[|rules| - 1];
      RemoveRules(rules[..|rules| - 1], text) + (if Matches(RuleText(last), text) then [] else [last])
  }

  /** ACLUpdateCommandRules() */
  function UpdateRules(rules: seq<Rule>, r: Rule): seq<Rule> { RemoveRules(rules, RuleText(r)) + [r] }

  ghost predicate AgreeOutside(a: iset<Point>, b: iset<Point>, scope: iset<Point>) {
    forall p :: p !in scope ==> (p in a <==> p in b)
  }

  lemma AgreeDo(a: iset<Point>, b: iset<Point>, e: Effect, scope: iset<Point>)
    requires AgreeOutside(a, b, scope)
    ensures AgreeOutside(Do(a, e), Do(b, e), scope)
    ensures e.on <= e.scope <= scope ==> AgreeOutside(Do(a, e), b, scope)
    ensures e.scope == scope ==> Do(a, e) == Do(b, e)
  {}

  lemma OnWithin(t: Table, x: Target, allow: bool)
    requires ValidTarget(t, x)
    ensures TargetEffect(t, x, allow).on <= TargetEffect(t, x, allow).scope
  {}

  lemma {:induction false} RemoveKeepsOutside(t: Table, all: bool, rules: seq<Rule>, r: Rule)
    requires ValidTable(t) && ValidRules(t, rules) && ValidRule(t, r)
    ensures ValidRules(t, RemoveRules(rules, RuleText(r)))
    ensures AgreeOutside(Rebuilt(t, all, rules), Rebuilt(t, all, RemoveRules(rules, RuleText(r))),
                         RuleEffect(t, r).scope)
  {
    hide ValidTable, TargetEffect, Matches, AgreeOutside, Do, Everything, ValidRule, RuleText;
    if rules == [] {
      SameAgrees(Everything(all), RuleEffect(t, r).scope);
    } else {
      var init, last := rules[..|rules| - 1], rules[|rules| - 1];
      RemoveKeepsOutside(t, all, init, r);
      var kept := RemoveRules(init, RuleText(r));
      var scope := RuleEffect(t, r).scope;
      AgreeDo(Rebuilt(t, all, init), Rebuilt(t, all, kept), RuleEffect(t, last), scope);
      if Matches(RuleText(last), RuleText(r)) {
        CoversRule(t, last, r);
        assert RemoveRules(rules, RuleText(r)) == kept;
      } else {
        assert (kept + [last])[..|kept|] == kept;
      }
    }
  }

  lemma SameAgrees(a: iset<Point>, scope: iset<Point>)
    ensures AgreeOutside(a, a, scope)
  {}

  lemma CoversRule(t: Table, x: Rule, y: Rule)
    requires ValidTable(t) && ValidRule(t, x) && ValidRule(t, y) && Matches(RuleText(x), RuleText(y))
    ensures RuleEffect(t, x).on <= RuleEffect(t, x).scope <= RuleEffect(t, y).scope
  {
    MatchCovers(t, x.target, y.target, x.allow, y.allow);
    OnWithin(t, x.target, x.allow);
  }

  /** Replacing the rules a new rule matches loses nothing. */
  lemma UpdateRebuilds(t: Table, all: bool, rules: seq<Rule>, r: Rule)
    requires ValidTable(t) && ValidRules(t, rules) && ValidRule(t, r)
    ensures ValidRules(t, UpdateRules(rules, r))
    ensures Rebuilt(t, all, UpdateRules(rules, r)) == Do(Rebuilt(t, all, rules), RuleEffect(t, r))
  {
    hide ValidTable, TargetEffect, AgreeOutside, Do;
    RemoveKeepsOutside(t, all, rules, r);
    var kept := RemoveRules(rules, RuleText(r));
    assert (kept + [r])[..|kept|] == kept;
    AgreeDo(Rebuilt(t, all, rules), Rebuilt(t, all, kept), RuleEffect(t, r), RuleEffect(t, r).scope);
  }
}
