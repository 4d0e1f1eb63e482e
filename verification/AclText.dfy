/** The command_rules string of an ACL selector: how rules are removed from it in place and how it is split
    back into operations. */
module AclText {
  import opened CString
  import opened SdsArgs

  /** The existing rule is the new one, or the new one followed by a bar. */
  predicate Matches(existing: string, added: string) { existing == added || added + "|" <= existing }

  /** A rule in the string: a sign and a text without spaces. */
  predicate IsOp(op: string) { op != "" && ' ' !in op }

  predicate AreOps(ops: seq<string>) { forall i :: 0 <= i < |ops| ==> IsOp(ops[i]) }

  /** The operations separated by single spaces. */
  function Join(ops: seq<string>): string {
    if ops == [] then "" else if |ops| == 1 then ops[0] else ops[0] + " " + Join(ops[1..])
  }

  /** The operations, each followed by a space. */
  function Lead(ops: seq<string>): string {
    if ops == [] then "" else Lead(ops[..|ops| - 1]) + ops[|ops| - 1] + " "
  }

  function RemoveOps(ops: seq<string>, added: string): seq<string>
    requires AreOps(ops)
  {
    if ops == [] then []
    else
      var last := ops[|ops| - 1];
      RemoveOps(ops[..|ops| - 1], added) + (if Matches(last[1..], added) then [] else [last])
  }

  lemma {:induction false} RemoveOpsKeeps(ops: seq<string>, added: string)
    requires AreOps(ops)
    ensures AreOps(RemoveOps(ops, added))
    ensures forall op :: op in RemoveOps(ops, added) <==> op in ops && !Matches(op[1..], added)
  {
    if ops != [] {
      var init := ops[..|ops| - 1];
      assert ops == init + [ops[|ops| - 1]];
      RemoveOpsKeeps(init, added);
    }
  }

  /** strchr(s + from, ' '), or the end. */
  function SpaceFrom(s: string, from: nat): (i: nat)
    requires from <= |s|
    ensures from <= i <= |s| && (i < |s| ==> s[i] == ' ')
    ensures forall k :: from <= k < i ==> s[k] != ' '
    decreases |s| - from
  {
    if from == |s| || s[from] == ' ' then from
    else SpaceFrom(s, from + 1)
  }

  lemma SpaceAfterOp(a: string, op: string, b: string)
    requires IsOp(op) && (b == "" || b[0] == ' ')
    ensures SpaceFrom(a + op + b, |a| + 1) == |a| + |op|
  {
    hide SpaceFrom;
    var s := a + op + b;
    var i := SpaceFrom(s, |a| + 1);
    forall k | |a| <= k < |a| + |op| ensures s[k] != ' ' { assert s[k] == op[k - |a|] && s[k] in op; }
    assert b != "" ==> s[|a| + |op|] == ' ';
  }

  /** What the loop compares: as many bytes as both have, then the byte after the new rule. */
  predicate SameRule(existing: string, added: string) {
    var n := if |existing| < |added| then |existing| else |added|;
    existing[..n] == added[..n] && (|existing| == |added| || (|existing| > |added| && existing[|added|] == '|'))
  }

  lemma SameRuleIsMatch(existing: string, added: string)
    ensures SameRule(existing, added) <==> Matches(existing, added)
  {
    assert existing[..|existing|] == existing && added[..|added|] == added;
    if |existing| > |added| {
      assert existing[..|added| + 1] == existing[..|added|] + [existing[|added|]];
      assert added + "|" <= existing <==> existing[..|added| + 1] == added + "|";
    }
  }

  lemma {:induction false} LeadJoin(ops: seq<string>)
    ensures ops != [] ==> Lead(ops) == Join(ops) + " "
  {
    if |ops| == 1 {
      LeadOne(ops[0]);
      assert ops == [ops[0]];
    } else if ops != [] {
      hide Lead;
      LeadCons(ops);
      LeadJoin(ops[1..]);
      assert ops[0] + " " + (Join(ops[1..]) + " ") == ops[0] + " " + Join(ops[1..]) + " ";
    }
  }

  lemma LeadOne(op: string)
    ensures Lead([op]) == op + " "
  {
    assert [op][..0] == [];
    assert "" + op + " " == op + " ";
  }

  lemma LeadSnoc(ops: seq<string>, op: string)
    ensures Lead(ops + [op]) == Lead(ops) + op + " "
  {
    assert (ops + [op])[..|ops|] == ops;
  }

  lemma {:induction false} LeadCons(ops: seq<string>)
    requires ops != []
    ensures Lead(ops) == ops[0] + " " + Lead(ops[1..])
  {
    hide Lead;
    var n := |ops| - 1;
    var init, last := ops[..n], ops[n];
    if n > 0 {
      LeadCons(init);
      LeadSnoc(init, last);
      LeadSnoc(init[1..], last);
      assert ops == init + [last] && ops[1..] == init[1..] + [last];
      assert ops[0] + " " + Lead(init[1..]) + last + " " == ops[0] + " " + (Lead(init[1..]) + last + " ");
    } else {
      LeadOne(ops[0]);
      LeadNothing();
      assert ops == [ops[0]] && ops[1..] == [];
      assert ops[0] + " " + "" == ops[0] + " ";
    }
  }

  /** Where the loop is: the rules kept so far, then the rules still to look at. */
  function Text(kept: seq<string>, rest: seq<string>): string {
    if rest == [] then Join(kept) else Lead(kept) + Join(rest)
  }

  lemma TextKeep(kept: seq<string>, rest: seq<string>)
    requires rest != []
    ensures Text(kept + [rest[0]], rest[1..]) == Text(kept, rest)
    ensures Lead(kept + [rest[0]]) == Lead(kept) + rest[0] + " "
  {
    assert (kept + [rest[0]])[..|kept|] == kept;
    if |rest| == 1 {
      LeadJoin(kept + rest);
      assert kept + [rest[0]] == kept + rest;
      var a, b := Join(kept + rest), Lead(kept) + rest[0];
      assert a + " " == b + " ";
      assert a == (a + " ")[..|a|] && b == (b + " ")[..|b|];
    }
  }

  /** What follows the first operation. */
  function JoinTail(rest: seq<string>): string
    requires rest != []
  {
    if |rest| == 1 then "" else " " + Join(rest[1..])
  }

  lemma TextHead(kept: seq<string>, rest: seq<string>)
    requires rest != [] && AreOps(rest)
    ensures Text(kept, rest) == Lead(kept) + rest[0] + JoinTail(rest)
    ensures |Lead(kept)| < |Text(kept, rest)|
    ensures JoinTail(rest) == "" || JoinTail(rest)[0] == ' '
    ensures JoinTail(rest) == "" <==> |rest| == 1
  {
    assert IsOp(rest[0]);
    if |rest| > 1 {
      assert rest[0] + " " + Join(rest[1..]) == rest[0] + JoinTail(rest);
    }
  }

  /** The rule the loop looks at ends where the code finds its end. */
  lemma RuleAt(kept: seq<string>, rest: seq<string>)
    requires rest != [] && AreOps(rest)
    ensures var r, at := Text(kept, rest), |Lead(kept)|;
            var end := at + |rest[0]|;
            && at < |r| && SpaceFrom(r, at + 1) == end <= |r| && r[at + 1..end] == rest[0][1..]
            && (end == |r| <==> |rest| == 1)
  {
    hide Text, Lead, JoinTail, SpaceFrom;
    TextHead(kept, rest);
    SpaceAfterOp(Lead(kept), rest[0], JoinTail(rest));
  }

  /** Removing the rule the loop looks at leaves the same text without it. */
  lemma CutRule(kept: seq<string>, rest: seq<string>)
    requires rest != [] && AreOps(rest)
    ensures var r, at := Text(kept, rest), |Lead(kept)|;
            var end := at + |rest[0]|;
            end <= |r| &&
            Text(kept, rest[1..]) ==
            if |rest| > 1 then r[..at] + (if end < |r| then r[end + 1..] else "")
            else r[..if at == 0 then 0 else at - 1]
  {
    hide Join, Lead, Text, JoinTail;
    TextHead(kept, rest);
    TextRest(kept, rest);
    LeadEnds(kept);
    var r, lead := Text(kept, rest), Lead(kept);
    var head := lead + rest[0];
    assert r == head + JoinTail(rest);
    assert r[..|lead|] == lead;
    if |rest| > 1 {
      assert r[|head| + 1..] == JoinTail(rest)[1..] == Join(rest[1..]);
    } else if kept != [] {
      assert r[..|lead| - 1] == lead[..|lead| - 1] == Join(kept);
    }
  }

  lemma TextRest(kept: seq<string>, rest: seq<string>)
    requires rest != []
    ensures |rest| > 1 ==>
              Text(kept, rest[1..]) == Lead(kept) + Join(rest[1..]) && JoinTail(rest) == " " + Join(rest[1..])
    ensures |rest| == 1 ==> Text(kept, rest[1..]) == Join(kept) && JoinTail(rest) == ""
  {}

  lemma LeadEnds(kept: seq<string>)
    ensures if kept == [] then Lead(kept) == "" && Join(kept) == "" else Lead(kept) == Join(kept) + " "
  {
    LeadJoin(kept);
  }

  /** Where the loop of RemoveCommandRule() is after k rules. */
  ghost predicate AtRule(ops: seq<string>, added: string, k: int, kept: seq<string>, r: string, existing: int) {
    && 0 <= k <= |ops| && AreOps(ops)
    && kept == RemoveOps(ops[..k], added)
    && r == Text(kept, ops[k..])
    && existing == (if k == |ops| then |r| else |Lead(kept)|)
    && (k < |ops| ==> existing < |r|)
  }

  /** One turn of the loop: where it cuts and where it goes on. */
  function Turn(r: string, existing: nat, added: string): (string, nat)
    requires existing < |r|
  {
    var ruleEnd := SpaceFrom(r, existing + 1);
    var copyPosition := if ruleEnd == |r| && existing != 0 then existing - 1 else existing;
    var copyEnd := if ruleEnd < |r| then ruleEnd + 1 else ruleEnd;
    if SameRule(r[existing + 1..ruleEnd], added) then (r[..copyPosition] + r[copyEnd..], copyPosition)
    else (r, copyEnd)
  }

  lemma TurnKeeps(ops: seq<string>, added: string, k: nat, kept: seq<string>, r: string, existing: nat)
    requires AtRule(ops, added, k, kept, r, existing) && existing < |r|
    ensures k < |ops| && IsOp(ops[k])
    ensures var (r', next) := Turn(r, existing, added);
            AtRule(ops, added, k + 1, kept + (if Matches(ops[k][1..], added) then [] else [ops[k]]), r', next)
  {
    hide Join, Lead, Matches, SameRule, JoinTail, Text, SpaceFrom;
    var rest, op := ops[k..], ops[k];
    assert rest[0] == op && rest[1..] == ops[k + 1..];
    assert ops[..k + 1][..k] == ops[..k];
    RuleAt(kept, rest);
    SameRuleIsMatch(op[1..], added);
    if Matches(op[1..], added) {
      CutRule(kept, rest);
      assert kept + [] == kept;
      if k + 1 < |ops| { TextHead(kept, ops[k + 1..]); }
    } else {
      TextKeep(kept, rest);
      if k + 1 < |ops| { TextHead(kept + [op], ops[k + 1..]); }
    }
  }

  /** ACLSelectorRemoveCommandRule(): every memmove() is a cut in the string. The contract is about strings
      made of rules; the loop ends on any string. */
  method RemoveCommandRule(rules: string, added: string, ghost ops: seq<string>) returns (r: string)
    ensures AreOps(ops) && rules == Join(ops) ==> r == Join(RemoveOps(ops, added))
  {
    hide Join, Lead, Matches, SameRule, Text, AtRule, Turn, AreOps;
    r := rules;
    var existing := 0;
    ghost var good := AreOps(ops) && rules == Join(ops);
    ghost var k := 0;
    ghost var kept: seq<string> := [];
    if good { AtStart(ops, added); }
    while existing < |r|
      invariant 0 <= existing <= |r| && 0 <= k
      invariant good ==> AtRule(ops, added, k, kept, r, existing)
      decreases |r| - existing
    {
      if good {
        TurnKeeps(ops, added, k, kept, r, existing);
        kept := kept + if Matches(ops[k][1..], added) then [] else [ops[k]];
        k := k + 1;
      }
      TurnAdvances(r, existing, added);
      var copyPosition := existing;
      var ruleEnd := SpaceFrom(r, existing + 1);
      if ruleEnd == |r| && copyPosition != 0 { copyPosition := copyPosition - 1; }
      var copyEnd := if ruleEnd < |r| then ruleEnd + 1 else ruleEnd;
      if SameRule(r[existing + 1..ruleEnd], added) {
        r := r[..copyPosition] + r[copyEnd..];
        existing := copyPosition;
      } else {
        existing := copyEnd;
      }
    }
    if good { AtEnd(ops, added, k, kept, r, existing); }
  }

  lemma TurnAdvances(r: string, existing: nat, added: string)
    requires existing < |r|
    ensures var ruleEnd := SpaceFrom(r, existing + 1);
            var copyPosition := if ruleEnd == |r| && existing != 0 then existing - 1 else existing;
            var copyEnd := if ruleEnd < |r| then ruleEnd + 1 else ruleEnd;
            Turn(r, existing, added) ==
            if SameRule(r[existing + 1..ruleEnd], added) then (r[..copyPosition] + r[copyEnd..], copyPosition)
            else (r, copyEnd)
  {}

  lemma AtStart(ops: seq<string>, added: string)
    requires AreOps(ops)
    ensures AtRule(ops, added, 0, [], Join(ops), 0)
  {
    assert ops[0..] == ops && ops[..0] == [];
    TextStart(ops);
  }

  lemma AtEnd(ops: seq<string>, added: string, k: nat, kept: seq<string>, r: string, existing: nat)
    requires AtRule(ops, added, k, kept, r, existing) && existing >= |r|
    ensures r == Join(RemoveOps(ops, added))
  {
    assert ops[..|ops|] == ops && ops[|ops|..] == [];
  }

  lemma TextStart(ops: seq<string>)
    requires AreOps(ops)
    ensures Text([], ops) == Join(ops) && Lead([]) == ""
    ensures ops != [] <==> Join(ops) != ""
  {
    LeadNothing();
    hide Lead;
    if ops != [] { JoinNonempty(ops); }
    assert "" + Join(ops) == Join(ops);
  }

  lemma LeadNothing()
    ensures Lead([]) == ""
  {
  }

  lemma JoinNonempty(ops: seq<string>)
    requires AreOps(ops) && ops != []
    ensures Join(ops) != ""
  {
    assert IsOp(ops[0]);
  }

  /** A space inside a rule splits it for the loop: what follows the space stays when the rule is removed. */
  lemma SpaceLeavesRest(name: string, a: string, b: string)
    requires ' ' !in name && ' ' !in a && b != "" && ' ' !in b
    ensures var first, rest := "+" + name + "|" + a, b;
      && Join([first + " " + rest]) == Join([first, rest]) && AreOps([first, rest])
      && Join(RemoveOps([first, rest], name)) == if Matches(rest[1..], name) then "" else rest
  {
    hide Matches, Join, RemoveOps;
    var first := "+" + name + "|" + a;
    SpaceFree(name, a);
    FirstMatches(name, a);
    RemoveFirst(first, b, name);
    JoinTwo(first, b);
  }

  lemma FirstMatches(name: string, a: string)
    ensures Matches(("+" + name + "|" + a)[1..], name)
  {
    assert ("+" + name + "|" + a)[1..] == name + "|" + a;
    assert name + "|" <= name + "|" + a;
  }

  lemma JoinTwo(a: string, b: string)
    ensures Join([a, b]) == a + " " + b && Join([a + " " + b]) == a + " " + b && Join([b]) == b && Join([]) == ""
  {
    assert [a, b][1..] == [b];
  }

  lemma RemoveFirst(a: string, b: string, added: string)
    requires IsOp(a) && IsOp(b) && Matches(a[1..], added)
    ensures RemoveOps([a, b], added) == if Matches(b[1..], added) then [] else [b]
  {
    hide Matches;
    assert [a, b][..1] == [a] && [a][..0] == [];
    assert RemoveOps([a], added) == [];
  }

  lemma SpaceFree(name: string, a: string)
    requires ' ' !in name && ' ' !in a
    ensures ' ' !in "+" + name + "|" + a
  {
  }

  // ----- splitting the string again -----

  /** Neither a separator nor a quote for sdssplitargs(). */
  predicate PlainChar(c: char) { c != ' ' && c != '\n' && c != '\r' && c != '\t' && c != '"' && c != '\'' }

  predicate Plain(s: string) { forall i :: 0 <= i < |s| ==> PlainChar(s[i]) }

  predicate Signed(op: string) { op != "" && (op[0] == '+' || op[0] == '-') }

  predicate PlainOp(op: string) { Signed(op) && Plain(op) }

  lemma {:induction false} ReadPlainOp(s: string, rest: string, current: string)
    requires Plain(s) && EndsToken(rest)
    ensures ReadToken(s + rest, Mode.Plain, current) == Done(current + s, if rest == "" then "" else rest[1..])
  {
    var t := s + rest;
    if s == "" {
      assert t == rest && current + s == current;
    } else {
      assert t[1..] == s[1..] + rest && t[0] == s[0] && PlainChar(s[0]);
      ReadPlainOp(s[1..], rest, current + [s[0]]);
      assert current + [s[0]] + s[1..] == current + s;
    }
  }

  lemma SplitOp(op: string, rest: string)
    requires PlainOp(op) && EndsToken(rest)
    ensures SplitArgs(op + rest) == match SplitArgs(rest)
                                    case None => None
                                    case Some(more) => Some([op] + more)
  {
    hide ReadToken;
    ReadPlainOp(op, rest, "");
    assert "" + op == op;
    var t := op + rest;
    assert t[0] == op[0];
    SplitStep(t, op, if rest == "" then "" else rest[1..]);
    SplitAfterToken(rest);
  }

  /** Plain operations come back first, then whatever the rest of the string gives. */
  lemma {:induction false} SplitLead(ops: seq<string>, rest: string)
    requires forall i :: 0 <= i < |ops| ==> PlainOp(ops[i])
    ensures SplitArgs(Lead(ops) + rest) == match SplitArgs(rest)
                                           case None => None
                                           case Some(more) => Some(ops + more)
  {
    hide SplitArgs, PlainOp, Lead;
    if ops == [] {
      LeadNothing();
      assert "" + rest == rest;
      if SplitArgs(rest).Some? { assert ops + SplitArgs(rest).value == SplitArgs(rest).value; }
    } else {
      LeadCons(ops);
      SplitLead(ops[1..], rest);
      SplitFirst(ops[0], Lead(ops[1..]), rest);
      if SplitArgs(rest).Some? { FirstAndRest(ops, SplitArgs(rest).value); }
    }
  }

  lemma FirstAndRest(ops: seq<string>, more: seq<string>)
    requires ops != []
    ensures [ops[0]] + (ops[1..] + more) == ops + more
  {
    assert ops == [ops[0]] + ops[1..];
  }

  lemma SplitFirst(op: string, lead: string, rest: string)
    requires PlainOp(op)
    ensures SplitArgs(op + " " + lead + rest) == match SplitArgs(lead + rest)
                                                 case None => None
                                                 case Some(more) => Some([op] + more)
  {
    hide SplitArgs, PlainOp;
    var tail := " " + (lead + rest);
    assert op + " " + lead + rest == op + tail;
    SplitOp(op, tail);
    SplitAfterToken(tail);
    assert tail[1..] == lead + rest;
  }

  lemma {:induction false} ReadShortens(t: string, current: string)
    requires !Plain(t)
    ensures var r := ReadToken(t, Mode.Plain, current); r.Done? ==> |r.token| < |current| + |t|
  {
    if PlainChar(t[0]) {
      assert !Plain(t[1..]) by { assert forall i :: 0 < i < |t| ==> t[i] == t[1..][i - 1]; }
      ReadShortens(t[1..], current + [t[0]]);
    }
  }

  lemma {:induction false} TokensFit(t: string)
    ensures SplitArgs(t).Some? ==> forall x :: x in SplitArgs(t).value ==> |x| <= |t|
    decreases |t|
  {
    hide ReadToken;
    if t != "" {
      if IsSpace(t[0]) {
        TokensFit(t[1..]);
      } else if ReadToken(t, Mode.Plain, "").Done? {
        TokensFit(ReadToken(t, Mode.Plain, "").rest);
      }
    }
  }

  /** A separator or a quote inside an operation is lost: no token is the operation again. */
  lemma TokensShorter(op: string)
    requires Signed(op) && !Plain(op)
    ensures SplitArgs(op).Some? ==> forall x :: x in SplitArgs(op).value ==> |x| < |op|
  {
    hide ReadToken;
    ReadShortens(op, "");
    if ReadToken(op, Mode.Plain, "").Done? { TokensFit(ReadToken(op, Mode.Plain, "").rest); }
  }

  lemma JoinAppend(ops: seq<string>, op: string)
    ensures Join(ops + [op]) == Lead(ops) + op
    ensures Join(ops + [op]) == (if ops == [] then "" else Join(ops) + " ") + op
  {
    TextKeep(ops, [op]);
    LeadJoin(ops);
    assert [op][1..] == [];
  }

  /** The string is split into its operations exactly when the last one has no separator or quote. */
  lemma SplitJoin(ops: seq<string>, op: string)
    requires forall i :: 0 <= i < |ops| ==> PlainOp(ops[i])
    requires Signed(op)
    ensures SplitArgs(Join(ops + [op])) == Some(ops + [op]) <==> Plain(op)
  {
    hide SplitArgs;
    JoinAppend(ops, op);
    SplitLead(ops, op);
    assert op + "" == op && [op] + [] == [op];
    if Plain(op) {
      SplitOp(op, "");
      assert SplitArgs("") == Some([]) by { SplitNothing(); }
    } else {
      TokensShorter(op);
      if SplitArgs(op).Some? { SamePrefix(ops, SplitArgs(op).value, [op]); }
    }
  }

  lemma SamePrefix(a: seq<string>, b: seq<string>, c: seq<string>)
    ensures a + b == a + c <==> b == c
  {
    assert b == (a + b)[|a|..] && c == (a + c)[|a|..];
  }

  lemma SplitNothing()
    ensures SplitArgs("") == Some([])
  {}

  // ----- splitting any string of rules -----

  /** What a token is read from: the first `n` characters. Spaces there stay in the token, and a quote there
      is lost. */
  lemma {:induction false} ReadRegion(t: string, mode: Mode, current: string) returns (n: nat)
    ensures Region(t, n, ReadToken(t, mode, current), current)
    ensures mode.Plain? ==> PlainRegion(t, n, ReadToken(t, mode, current), current)
    decreases |t|
  {
    if t == "" {
      n := 0;
      assert t[..0] == "" && current + "" == current;
    } else if mode.Plain? {
      hide Region, PlainRegion;
      n := ReadRegionPlain(t, current);
    } else {
      hide Region, PlainRegion;
      n := ReadRegionQuoted(t, mode, current);
    }
  }

  /** What ReadRegion() says of a region of `n` characters. */
  predicate Region(t: string, n: nat, r: Token, current: string) {
    r.Done? ==>
      && n <= |t| && |r.rest| <= |t| && r.rest == t[|t| - |r.rest|..]
      && current <= r.token && |r.token| <= |current| + n
      && (' ' in t[..n] ==> ' ' in r.token)
  }

  predicate PlainRegion(t: string, n: nat, r: Token, current: string) {
    r.Done? && n <= |t| ==> if Plain(t[..n]) then r.token == current + t[..n] else |r.token| < |current| + n
  }

  lemma {:induction false} ReadRegionPlain(t: string, current: string) returns (n: nat)
    requires t != ""
    ensures var r := ReadToken(t, Mode.Plain, current); Region(t, n, r, current) && PlainRegion(t, n, r, current)
    decreases |t|, 0
  {
    hide ReadToken, Region, PlainRegion;
    if t[0] == ' ' || t[0] == '\n' || t[0] == '\r' || t[0] == '\t' {
      ReadSeparator(t, current);
      n := 0;
      EmptyRegion(t, current);
    } else if t[0] == '"' || t[0] == '\'' {
      OpenQuote(t, current);
      var k := ReadRegion(t[1..], if t[0] == '"' then InDouble else InSingle, current);
      n := k + 1;
      QuoteRegion(t, k, ReadToken(t, Mode.Plain, current), current);
    } else {
      ReadCharacter(t, current);
      var k := ReadRegion(t[1..], Mode.Plain, current + [t[0]]);
      n := k + 1;
      CharacterRegion(t, k, ReadToken(t, Mode.Plain, current), current);
    }
  }

  lemma EmptyRegion(t: string, current: string)
    requires t != ""
    ensures Region(t, 0, Done(current, t[1..]), current) && PlainRegion(t, 0, Done(current, t[1..]), current)
  {
    hide Plain;
    PlainNothing();
    assert t[..0] == "" && current + "" == current;
  }

  lemma QuoteRegion(t: string, k: nat, r: Token, current: string)
    requires t != "" && (t[0] == '"' || t[0] == '\'') && Region(t[1..], k, r, current)
    ensures Region(t, k + 1, r, current) && PlainRegion(t, k + 1, r, current)
  {
    hide Plain;
    if r.Done? {
      assert t[..k + 1] == [t[0]] + t[1..][..k];
      PlainCons(t[0], t[1..][..k]);
    }
  }

  lemma CharacterRegion(t: string, k: nat, r: Token, current: string)
    requires t != "" && PlainChar(t[0])
    requires Region(t[1..], k, r, current + [t[0]]) && PlainRegion(t[1..], k, r, current + [t[0]])
    ensures Region(t, k + 1, r, current) && PlainRegion(t, k + 1, r, current)
  {
    hide Plain;
    if r.Done? {
      var region := t[1..][..k];
      assert t[..k + 1] == [t[0]] + region;
      PlainCons(t[0], region);
      assert current + [t[0]] + region == current + ([t[0]] + region);
    }
  }

  lemma PlainNothing()
    ensures Plain("")
  {
  }

  lemma ReadSeparator(t: string, current: string)
    requires t != "" && (t[0] == ' ' || t[0] == '\n' || t[0] == '\r' || t[0] == '\t')
    ensures ReadToken(t, Mode.Plain, current) == Done(current, t[1..])
  {
  }

  lemma OpenQuote(t: string, current: string)
    requires t != "" && (t[0] == '"' || t[0] == '\'')
    ensures ReadToken(t, Mode.Plain, current)
         == ReadToken(t[1..], if t[0] == '"' then InDouble else InSingle, current)
  {
  }

  lemma ReadCharacter(t: string, current: string)
    requires t != "" && PlainChar(t[0])
    ensures ReadToken(t, Mode.Plain, current) == ReadToken(t[1..], Mode.Plain, current + [t[0]])
  {
  }

  lemma PlainCons(c: char, s: string)
    ensures Plain([c] + s) <==> PlainChar(c) && Plain(s)
  {
    var t := [c] + s;
    assert t[0] == c;
    assert forall i :: 0 <= i < |s| ==> t[i + 1] == s[i];
    assert forall i :: 0 < i < |t| ==> t[i] == s[i - 1];
  }

  /** How many characters a quoted mode takes at once, and what it adds. */
  function QuotedStep(t: string, mode: Mode): (int, string)
    requires t != ""
  {
    if mode.InDouble? then
      if t[0] == '\\' && |t| >= 4 && t[1] == 'x' && IsHex(t[2]) && IsHex(t[3]) then
        (4, [(16 * HexValue(t[2]) + HexValue(t[3])) as char])
      else if t[0] == '\\' && |t| >= 2 then (2, [Unescape(t[1])])
      else (1, [t[0]])
    else if t[0] == '\\' && |t| >= 2 && t[1] == '\'' then (2, ['\''])
    else (1, [t[0]])
  }

  lemma QuotedStepIs(t: string, mode: Mode, current: string)
    requires t != "" && !mode.Plain? && t[0] != (if mode.InDouble? then '"' else '\'')
    ensures var (k, x) := QuotedStep(t, mode);
      && 1 <= k <= |t| && |x| == 1 && (' ' in t[..k] ==> ' ' in x)
      && ReadToken(t, mode, current) == ReadToken(t[k..], mode, current + x)
  {
    hide HexValue;
    var (k, x) := QuotedStep(t, mode);
    if k == 4 {
      assert t[..4] == [t[0], t[1], t[2], t[3]];
    } else if k == 2 {
      assert t[..2] == [t[0], t[1]];
    } else {
      assert t[..1] == [t[0]];
    }
    assert forall c :: c in x <==> c == x[0];
  }

  lemma {:induction false} ReadRegionQuoted(t: string, mode: Mode, current: string) returns (n: nat)
    requires t != "" && !mode.Plain?
    ensures Region(t, n, ReadToken(t, mode, current), current)
    decreases |t|, 0
  {
    if t[0] == (if mode.InDouble? then '"' else '\'') {
      n := 1;
      assert t[..1] == [t[0]];
    } else {
      QuotedStepIs(t, mode, current);
      var (k, x) := QuotedStep(t, mode);
      hide ReadToken, QuotedStep, Region;
      var m := ReadRegion(t[k..], mode, current + x);
      n := m + k;
      StepRegion(t, k, x, m, ReadToken(t, mode, current), current);
    }
  }

  lemma StepRegion(t: string, k: nat, x: string, m: nat, r: Token, current: string)
    requires k <= |t| && |x| <= k && (' ' in t[..k] ==> ' ' in x) && Region(t[k..], m, r, current + x)
    ensures Region(t, m + k, r, current)
  {
    if r.Done? {
      assert m <= |t[k..]|;
      assert t[..m + k] == t[..k] + t[k..][..m];
      assert t[k..][|t[k..]| - |r.rest|..] == t[|t| - |r.rest|..];
      if ' ' in x { SpaceStays(current, x, r); }
    }
  }

  lemma SpaceStays(current: string, x: string, r: Token)
    requires ' ' in x
    ensures r.Done? && current + x <= r.token ==> ' ' in r.token
  {
    if r.Done? && current + x <= r.token {
      var i :| 0 <= i < |x| && x[i] == ' ';
      assert (current + x)[|current| + i] == ' ';
      assert r.token[|current| + i] == (current + x)[|current| + i];
    }
  }

  /** Pieces between spaces with a separator or a quote in them are no longer than this. */
  ghost predicate Bounded(t: string, limit: nat) {
    forall i, j {:trigger t[i..j]} :: 0 <= i <= j <= |t| && ' ' !in t[i..j] && !Plain(t[i..j]) ==> j - i <= limit
  }

  lemma BoundedSuffix(t: string, limit: nat, k: nat)
    requires Bounded(t, limit) && k <= |t|
    ensures Bounded(t[k..], limit)
  {
    hide Plain;
    forall i, j | 0 <= i <= j <= |t[k..]| && ' ' !in t[k..][i..j] && !Plain(t[k..][i..j])
      ensures j - i <= limit
    {
      assert t[k..][i..j] == t[i + k..j + k];
    }
  }

  /** A token is plain, holds a space, or is shorter than the piece with a separator or a quote it came from. */
  lemma {:induction false} TokensBounded(t: string, limit: nat)
    requires Bounded(t, limit)
    ensures SplitArgs(t).Some? ==> forall x :: x in SplitArgs(t).value ==> ' ' in x || Plain(x) || |x| < limit
    decreases |t|
  {
    hide ReadToken, Plain, Bounded;
    if t != "" {
      if IsSpace(t[0]) {
        BoundedSuffix(t, limit, 1);
        TokensBounded(t[1..], limit);
      } else {
        var r := ReadToken(t, Mode.Plain, "");
        var n := ReadRegion(t, Mode.Plain, "");
        assert Region(t, n, r, "") && PlainRegion(t, n, r, "");
        if r.Done? {
          BoundedSuffix(t, limit, |t| - |r.rest|);
          TokensBounded(r.rest, limit);
          assert "" + t[..n] == t[..n] == t[0..n];
          if !Plain(t[..n]) && ' ' !in t[..n] { BoundedAt(t, limit, n); }
        }
      }
    }
  }

  lemma BoundedAt(t: string, limit: nat, n: nat)
    requires Bounded(t, limit) && n <= |t| && !Plain(t[..n]) && ' ' !in t[..n]
    ensures n <= limit
  {
    hide Plain;
    assert t[0..n] == t[..n];
  }

  lemma PlainPiece(s: string, i: nat, j: nat)
    requires i <= j <= |s| && Plain(s)
    ensures Plain(s[i..j])
  {
    hide PlainChar;
    forall k | 0 <= k < j - i
      ensures PlainChar(s[i..j][k])
    {
      assert PlainChar(s[i + k]);
    }
  }

  lemma {:induction false} JoinBounded(ops: seq<string>, limit: nat)
    requires AreOps(ops)
    requires forall i :: 0 <= i < |ops| ==> Plain(ops[i]) || |ops[i]| <= limit
    ensures Bounded(Join(ops), limit)
  {
    hide Plain;
    var t := Join(ops);
    if ops == [] {
      NothingBounded(limit);
      return;
    }
    if |ops| > 1 { JoinBounded(ops[1..], limit); }
    forall i, j | 0 <= i <= j <= |t| && ' ' !in t[i..j] && !Plain(t[i..j])
      ensures j - i <= limit
    {
      if j <= |ops[0]| {
        assert t[i..j] == ops[0][i..j];
        if Plain(ops[0]) { PlainPiece(ops[0], i, j); }
      } else if |ops| > 1 {
        assert t == ops[0] + " " + Join(ops[1..]);
        SpaceInside(ops[0], Join(ops[1..]), i, j);
        var n := |ops[0]| + 1;
        assert t[i..j] == Join(ops[1..])[i - n..j - n];
      }
    }
  }

  lemma NothingBounded(limit: nat)
    ensures Bounded("", limit)
  {
  }

  lemma SpaceInside(a: string, b: string, i: nat, j: nat)
    requires i <= j <= |a + " " + b| && j > |a|
    ensures i <= |a| ==> ' ' in (a + " " + b)[i..j]
  {
    var t := a + " " + b;
    if i <= |a| { assert t[i..j][|a| - i] == ' '; }
  }
}
