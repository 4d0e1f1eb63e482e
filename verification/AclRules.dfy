/** What the command rules of an ACL selector mean: ACLSetSelector() on command operations, the effect of
    each rule, and why the compacted rule list still means the same. */
module AclRules {
  import opened CString

  /** USER_COMMAND_BITS_COUNT; the last bit is reserved for "future commands". */
  const BITS := 1024
  const RESERVED := 1023

  datatype SubCommand = SubCommand(id: nat, categories: set<string>)

  datatype CommandInfo = CommandInfo(id: nat, categories: set<string>, subs: Option<map<string, SubCommand>>)

  /** server.orig_commands with its case-insensitive keys in lower case, and the category names. */
  datatype Table = Table(commands: map<string, CommandInfo>, categories: set<string>)

  /** A permission: the right to run a command, or to run it with a given first argument. */
  datatype Point = Bit(id: nat) | First(id: nat, arg: string)

  /** A rule overwrites the permissions in its scope and leaves the others alone. */
  datatype Effect = Effect(scope: iset<Point>, on: iset<Point>)

  ghost function Do(s: iset<Point>, e: Effect): iset<Point> { (s - e.scope) + e.on }

  // ----- tables -----

  predicate IsName(s: string) {
    && s != "" && Lower(s) == s
    && '|' !in s && s[0] != '@'
  }

  predicate GoodId(id: nat) { id < RESERVED }

  /** The ids of the commands that can carry first arguments. */
  ghost predicate Carrier(t: Table, id: nat) {
    exists c :: c in t.commands && t.commands[c].id == id && t.commands[c].subs.None?
  }

  ghost predicate ValidTable(t: Table) {
    && (forall c :: c in t.commands ==> IsName(c) && GoodId(t.commands[c].id))
    && (forall c, s :: c in t.commands && t.commands[c].subs.Some? && s in t.commands[c].subs.value ==>
          IsName(s) && GoodId(t.commands[c].subs.value[s].id))
    // ACLGetCommandID() gives a subcommand no id of a command
    && (forall c, s :: c in t.commands && t.commands[c].subs.Some? && s in t.commands[c].subs.value ==>
          !Carrier(t, t.commands[c].subs.value[s].id))
    && (forall c, d :: c in t.commands && d in t.commands && t.commands[c].id == t.commands[d].id ==> c == d)
    && (forall k :: k in t.categories ==> Lower(k) == k && '|' !in k && k != "all")
  }

  function FirstBar(s: string): (i: nat)
    requires '|' in s
    ensures i < |s| && s[i] == '|' && '|' !in s[..i]
  {
    if s[0] == '|' then 0
    else
      var i := 1 + FirstBar(s[1..]);
      assert s[..i] == [s[0]] + s[1..][..i - 1];
      i
  }

  datatype Found = NotFound | Top(name: string) | Sub(name: string, sub: string)

  /** ACLLookupCommand(): one or two parts separated by a bar, both looked up ignoring case. */
  function Lookup(t: Table, text: string): (r: Found)
    ensures r.Top? ==> r.name in t.commands && r.name == Lower(text)
    ensures r.Sub? ==> r.name in t.commands && t.commands[r.name].subs.Some? && r.sub in t.commands[r.name].subs.value
  {
    var s := Lower(text);
    if '|' !in s then (if s in t.commands then Top(s) else NotFound)
    else
      var i := FirstBar(s);
      var name, sub := s[..i], s[i + 1..];
      if '|' !in sub && name in t.commands && t.commands[name].subs.Some? && sub in t.commands[name].subs.value
      then Sub(name, sub) else NotFound
  }

  // ----- effects -----

  ghost function Bits(ids: iset<nat>): iset<Point> { iset p: Point | p.Bit? && p.id in ids }

  ghost function Firsts(t: Table, ids: iset<nat>): iset<Point> {
    iset p: Point | p.First? && p.id in ids && Carrier(t, p.id)
  }

  ghost function Overwrite(t: Table, ids: iset<nat>, resets: iset<nat>, allow: bool): Effect {
    Effect(Bits(ids) + Firsts(t, resets), if allow then Bits(ids) else iset{})
  }

  ghost predicate HasSub(c: CommandInfo, id: nat) {
    c.subs.Some? && exists s :: s in c.subs.value && c.subs.value[s].id == id
  }

  /** ACLChangeSelectorPerm() on a command: its bit and those of its subcommands. */
  ghost function CommandEffect(t: Table, name: string, allow: bool): Effect
    requires name in t.commands
  {
    var c := t.commands[name];
    Overwrite(t, (iset id: nat | id == c.id || HasSub(c, id)), iset{c.id}, allow)
  }

  /** ACLChangeSelectorPerm() on a subcommand. */
  ghost function SubEffect(t: Table, name: string, sub: string, allow: bool): Effect
    requires name in t.commands && t.commands[name].subs.Some? && sub in t.commands[name].subs.value
  {
    var id := t.commands[name].subs.value[sub].id;
    Overwrite(t, iset{id}, iset{id}, allow)
  }

  ghost predicate SubIn(c: CommandInfo, id: nat, category: string) {
    c.subs.Some? && exists s :: s in c.subs.value && c.subs.value[s].id == id && category in c.subs.value[s].categories
  }

  /** ACLSetSelectorCommandBitsForCategory() sets the bit because of this command. */
  ghost predicate SetBy(c: CommandInfo, id: nat, category: string) {
    (category in c.categories && (id == c.id || HasSub(c, id))) || SubIn(c, id, category)
  }

  /** It drops the first arguments because of this command. */
  ghost predicate ResetBy(c: CommandInfo, id: nat, category: string) {
    (category in c.categories && id == c.id) || SubIn(c, id, category)
  }

  ghost predicate InCategory(t: Table, id: nat, category: string) {
    exists c :: c in t.commands && SetBy(t.commands[c], id, category)
  }

  ghost predicate OwnInCategory(t: Table, id: nat, category: string) {
    exists c :: c in t.commands && ResetBy(t.commands[c], id, category)
  }

  ghost function CategoryEffect(t: Table, category: string, allow: bool): Effect {
    Overwrite(t, (iset id: nat | InCategory(t, id, category)), (iset id: nat | OwnInCategory(t, id, category)), allow)
  }

  ghost function FirstArgEffect(t: Table, name: string, arg: string): Effect
    requires name in t.commands
  {
    var p := iset{First(t.commands[name].id, arg)};
    Effect(p, p)
  }

  /** +@all and -@all start over. */
  ghost function Everything(allow: bool): iset<Point> {
    if allow then iset p: Point | p.Bit? && p.id < BITS else iset{}
  }

  // ----- operations -----

  /** What a rule is about. */
  datatype Target =
    | OfCommand(name: string)
    | OfSub(name: string, sub: string)
    | OfFirstArg(name: string, arg: string)
    | OfCategory(category: string)

  ghost predicate ValidTarget(t: Table, x: Target) {
    match x
    case OfCommand(name) => name in t.commands
    case OfSub(name, sub) => name in t.commands && t.commands[name].subs.Some? && sub in t.commands[name].subs.value
    case OfFirstArg(name, arg) =>
      name in t.commands && t.commands[name].subs.None? && arg != "" && '|' !in arg && Lower(arg) == arg
    case OfCategory(category) => category in t.categories
  }

  function TargetText(x: Target): string {
    match x
    case OfCommand(name) => name
    case OfSub(name, sub) => name + "|" + sub
    case OfFirstArg(name, arg) => name + "|" + arg
    case OfCategory(category) => "@" + category
  }

  /** A rule as the selector keeps it: a sign and a text in lower case. */
  datatype Rule = Rule(allow: bool, target: Target)

  ghost predicate ValidRule(t: Table, r: Rule) { ValidTarget(t, r.target) && (r.target.OfFirstArg? ==> r.allow) }

  function RuleText(r: Rule): string { TargetText(r.target) }

  function RuleOp(r: Rule): string { (if r.allow then "+" else "-") + RuleText(r) }

  ghost function TargetEffect(t: Table, x: Target, allow: bool): Effect
    requires ValidTarget(t, x)
  {
    match x
    case OfCommand(name) => CommandEffect(t, name, allow)
    case OfSub(name, sub) => SubEffect(t, name, sub, allow)
    case OfFirstArg(name, arg) => FirstArgEffect(t, name, arg)
    case OfCategory(category) => CategoryEffect(t, category, allow)
  }

  datatype Parsed = SetAll(allow: bool) | Change(rule: Rule) | NotCommands | Refused

  predicate NotAboutCommands(op: string) {
    || SameIgnoringCase(op, "allkeys") || SameIgnoringCase(op, "~*") || SameIgnoringCase(op, "resetkeys")
    || SameIgnoringCase(op, "allchannels") || SameIgnoringCase(op, "&*") || SameIgnoringCase(op, "resetchannels")
  }

  /** Which branch of ACLSetSelector() an operation takes. Key and channel patterns, with their own errors,
      are one case: they leave commands alone. */
  function Parse(t: Table, op: string): Parsed {
    if NotAboutCommands(op) then NotCommands
    else if SameIgnoringCase(op, "allcommands") || SameIgnoringCase(op, "+@all") then SetAll(true)
    else if SameIgnoringCase(op, "nocommands") || SameIgnoringCase(op, "-@all") then SetAll(false)
    else if op == "" then Refused
    else if op[0] == '~' || op[0] == '%' || op[0] == '&' then NotCommands
    else if op[0] == '+' || op[0] == '-' then
      (match ParseTarget(t, op[0] == '+', op[1..])
       case Some(x) => Change(Rule(op[0] == '+', x))
       case None => Refused)
    else Refused
  }

  /** The target of a signed operation; None is the error return. */
  function ParseTarget(t: Table, allow: bool, text: string): Option<Target> {
    if text != "" && text[0] == '@' then
      (if Lower(text[1..]) in t.categories then Some(OfCategory(Lower(text[1..]))) else None)
    else if !allow || '|' !in text then OfFound(Lookup(t, text))
    else
      // the bar is searched from the right; a first argument of a subcommand is refused
      var bar := LastBar(text);
      var arg := text[bar + 1..];
      match Lookup(t, text[..bar])
      case Top(name) =>
        if arg == "" then None
        else if t.commands[name].subs.None? then Some(OfFirstArg(name, Lower(arg)))
        else OfFound(Lookup(t, text))
      case _ => None
  }

  function OfFound(f: Found): Option<Target> {
    match f
    case Top(name) => Some(OfCommand(name))
    case Sub(name, sub) => Some(OfSub(name, sub))
    case NotFound => None
  }

  function LastBar(s: string): (i: nat)
    requires '|' in s
    ensures i < |s| && s[i] == '|' && '|' !in s[i + 1..]
  {
    if s[|s| - 1] == '|' then |s| - 1
    else
      var i := LastBar(s[..|s| - 1]);
      assert s[i + 1..] == s[..|s| - 1][i + 1..] + [s[|s| - 1]];
      i
  }

  // ----- what the text of a rule determines -----

  lemma FirstBarOf(a: string, b: string)
    requires '|' !in a
    ensures '|' in a + "|" + b
    ensures FirstBar(a + "|" + b) == |a|
  {
    var s := a + "|" + b;
    assert s[|a|] == '|' && s[..|a|] == a;
    var i := FirstBar(s);
  }

  lemma LastBarOf(a: string, b: string)
    requires '|' !in b
    ensures '|' in a + "|" + b
    ensures LastBar(a + "|" + b) == |a|
  {
    var s := a + "|" + b;
    assert s[|a|] == '|' && s[|a| + 1..] == b;
    var i := LastBar(s);
  }

  lemma LowerConcat(a: string, b: string)
    ensures Lower(a + b) == Lower(a) + Lower(b)
  {
    assert |Lower(a + b)| == |Lower(a) + Lower(b)|;
  }

  lemma LowerOfPair(a: string, b: string)
    requires Lower(a) == a && Lower(b) == b
    ensures Lower(a + "|" + b) == a + "|" + b
  {
    LowerConcat(a + "|", b);
    LowerConcat(a, "|");
  }

  lemma LookupName(t: Table, name: string)
    requires name in t.commands && IsName(name)
    ensures Lookup(t, name) == Top(name)
  {}

  lemma LookupPair(t: Table, name: string, sub: string)
    requires IsName(name) && IsName(sub)
    requires name in t.commands && t.commands[name].subs.Some? && sub in t.commands[name].subs.value
    ensures Lookup(t, name + "|" + sub) == Sub(name, sub)
  {
    LowerOfPair(name, sub);
    FirstBarOf(name, sub);
    var s := name + "|" + sub;
    assert s[..|name|] == name && s[|name| + 1..] == sub;
  }

  lemma ParseSigned(t: Table, op: string)
    requires op != "" && (op[0] == '+' || op[0] == '-')
    requires |op| > 1 && op[1] == '@' ==> Lower(op[2..]) != "all"
    ensures Parse(t, op) == match ParseTarget(t, op[0] == '+', op[1..])
                            case Some(x) => Change(Rule(op[0] == '+', x))
                            case None => Refused
  {
    hide ParseTarget, Lower;
    SignedNot(op);
    SignedAll(op);
  }

  /** A signed operation is none of the operations named by a word. */
  lemma SignedNot(op: string)
    requires op != "" && (op[0] == '+' || op[0] == '-')
    ensures !NotAboutCommands(op) && !SameIgnoringCase(op, "allcommands") && !SameIgnoringCase(op, "nocommands")
  {
    assert Lower(op)[0] == op[0];
    assert Lower("allkeys")[0] == 'a' && Lower("~*")[0] == '~' && Lower("resetkeys")[0] == 'r';
    assert Lower("allchannels")[0] == 'a' && Lower("&*")[0] == '&' && Lower("resetchannels")[0] == 'r';
    assert Lower("allcommands")[0] == 'a' && Lower("nocommands")[0] == 'n';
  }

  lemma SignedAll(op: string)
    requires op != "" && (|op| > 1 && op[1] == '@' ==> Lower(op[2..]) != "all")
    ensures !SameIgnoringCase(op, "+@all") && !SameIgnoringCase(op, "-@all")
  {
    if SameIgnoringCase(op, "+@all") { SpelledAll(op, "+@all"); }
    if SameIgnoringCase(op, "-@all") { SpelledAll(op, "-@all"); }
  }

  lemma SpelledAll(op: string, word: string)
    requires (word == "+@all" || word == "-@all") && Lower(op) == Lower(word)
    ensures |op| > 1 && op[1] == '@' && Lower(op[2..]) == "all"
  {
    var l := Lower(op);
    assert l[1] == LowerChar(op[1]) && Lower(word)[1] == '@';
    assert l[2..] == Lower(op[2..]);
    assert Lower(word)[2..] == "all";
  }

  lemma ParsePair(t: Table, name: string, arg: string)
    requires IsName(name) && name in t.commands && arg != "" && '|' !in arg && Lower(arg) == arg
    ensures ParseTarget(t, true, name + "|" + arg) ==
            if t.commands[name].subs.None? then Some(OfFirstArg(name, arg)) else OfFound(Lookup(t, name + "|" + arg))
  {
    hide Lookup;
    var text := name + "|" + arg;
    assert text[0] == name[0];
    LastBarOf(name, arg);
    assert text[..|name|] == name && text[|name| + 1..] == arg;
    LookupName(t, name);
  }

  lemma ParseTargetText(t: Table, r: Rule)
    requires ValidTable(t) && ValidRule(t, r)
    ensures ParseTarget(t, r.allow, RuleText(r)) == Some(r.target)
    ensures RuleText(r) != ""
    ensures RuleText(r)[0] == '@' ==> Lower(RuleText(r)[1..]) != "all"
  {
    hide Lookup;
    match r.target
    case OfCommand(name) => LookupName(t, name);
    case OfSub(name, sub) =>
      assert RuleText(r)[0] == name[0];
      LookupPair(t, name, sub);
      ParsePair(t, name, sub);
    case OfFirstArg(name, arg) =>
      assert RuleText(r)[0] == name[0];
      ParsePair(t, name, arg);
    case OfCategory(category) =>
      assert RuleText(r)[1..] == category;
  }

  /** The rule the selector keeps is itself an accepted operation, and means the same. */
  lemma ParseRule(t: Table, r: Rule)
    requires ValidTable(t) && ValidRule(t, r)
    ensures Parse(t, RuleOp(r)) == Change(r)
  {
    hide Parse, ParseTarget, RuleText, ValidTable;
    ParseTargetText(t, r);
    assert RuleOp(r)[1..] == RuleText(r) && RuleOp(r)[2..] == RuleText(r)[1..];
    ParseSigned(t, RuleOp(r));
  }

  lemma LowerTwice(s: string)
    ensures Lower(Lower(s)) == Lower(s)
    ensures '|' !in s ==> '|' !in Lower(s)
  {
    assert forall i :: 0 <= i < |s| ==> Lower(s)[i] == LowerChar(s[i]);
  }

  lemma ParseTargetValid(t: Table, allow: bool, text: string)
    ensures ParseTarget(t, allow, text).Some? ==> ValidRule(t, Rule(allow, ParseTarget(t, allow, text).value))
  {
    if allow && '|' in text { LowerTwice(text[LastBar(text) + 1..]); }
  }

  lemma ParseValid(t: Table, op: string)
    ensures Parse(t, op).Change? ==> ValidRule(t, Parse(t, op).rule)
  {
    hide ParseTarget, ValidRule;
    if op != "" { ParseTargetValid(t, op[0] == '+', op[1..]); }
  }

  // ----- exactly which operations are accepted -----

  lemma LowerKeepsBars(s: string)
    ensures |Lower(s)| == |s| && forall i :: 0 <= i < |s| ==> (Lower(s)[i] == '|' <==> s[i] == '|')
    ensures '|' in s <==> '|' in Lower(s)
    ensures s != "" ==> (Lower(s)[0] == '@' <==> s[0] == '@')
  {
    assert forall i :: 0 <= i < |s| ==> Lower(s)[i] == LowerChar(s[i]);
    if '|' in s {
      var i :| 0 <= i < |s| && s[i] == '|';
      assert Lower(s)[i] == '|';
    }
  }

  lemma LowerSlice(s: string, i: nat, j: nat)
    requires i <= j <= |s|
    ensures Lower(s)[i..j] == Lower(s[i..j])
  {}

  lemma LastBarIs(s: string, i: nat)
    requires i < |s| && s[i] == '|' && '|' !in s[i + 1..]
    ensures '|' in s && LastBar(s) == i
  {
    hide LastBar;
    assert s == s[..i] + "|" + s[i + 1..];
    LastBarOf(s[..i], s[i + 1..]);
  }

  lemma LookupAnyCase(t: Table, text: string)
    ensures Lookup(t, Lower(text)) == Lookup(t, text)
  {
    LowerTwice(text);
  }

  /** Case does not matter. */
  lemma ParseAnyCase(t: Table, allow: bool, text: string)
    ensures ParseTarget(t, allow, Lower(text)) == ParseTarget(t, allow, text)
  {
    hide LastBar, Lookup;
    LowerTwice(text);
    LowerKeepsBars(text);
    LookupAnyCase(t, text);
    if text != "" && text[0] == '@' {
      LowerSlice(text, 1, |text|);
      LowerTwice(text[1..]);
      assert Lower(text)[1..] == Lower(text[1..]);
    } else if allow && '|' in text {
      var bar := LastBar(text);
      LowerSlice(text, bar + 1, |text|);
      LowerSlice(text, 0, bar);
      LowerKeepsBars(text[bar + 1..]);
      assert Lower(text)[bar + 1..] == Lower(text[bar + 1..]) && Lower(text)[..bar] == Lower(text[..bar]);
      LastBarIs(Lower(text), bar);
      LookupAnyCase(t, text[..bar]);
      LowerTwice(text[bar + 1..]);
    }
  }

  /** Two operations spelled alike but for the case of letters do the same. */
  lemma ParseVariants(t: Table, a: string, b: string)
    requires CaseVariants(a, b)
    ensures Parse(t, a) == Parse(t, b)
  {
    hide Parse, Lower, CaseVariants;
    SameExactlyVariants(a, b);
    ParseLower(t, a);
    ParseLower(t, b);
  }

  lemma ParseLower(t: Table, op: string)
    ensures Parse(t, Lower(op)) == Parse(t, op)
  {
    hide ParseTarget, Lower;
    LowerTwice(op);
    if op == "" {
      assert Lower(op) == op;
    } else {
      LowerSigns(op);
      LowerSlice(op, 1, |op|);
      assert op[1..|op|] == op[1..] && Lower(op)[1..|op|] == Lower(op)[1..];
      ParseAnyCase(t, op[0] == '+', op[1..]);
    }
  }

  lemma LowerSigns(s: string)
    requires s != ""
    ensures Lower(s) != "" && (Lower(s)[0] == '+' <==> s[0] == '+') && (Lower(s)[0] == '-' <==> s[0] == '-')
    ensures (Lower(s)[0] == '~' <==> s[0] == '~') && (Lower(s)[0] == '%' <==> s[0] == '%')
    ensures Lower(s)[0] == '&' <==> s[0] == '&'
  {
    assert Lower(s)[0] == LowerChar(s[0]);
  }

  lemma LookupText(t: Table, text: string)
    ensures Lookup(t, text).Sub? ==> Lower(text) == Lookup(t, text).name + "|" + Lookup(t, text).sub
  {
    var s := Lower(text);
    if '|' in s { assert s == s[..FirstBar(s)] + "|" + s[FirstBar(s) + 1..]; }
  }

  /** The target's text is the operation's, in lower case. */
  lemma ParseKeepsText(t: Table, allow: bool, text: string)
    ensures ParseTarget(t, allow, text).Some? ==> Lower(text) == TargetText(ParseTarget(t, allow, text).value)
  {
    hide Lookup, LastBar;
    LookupText(t, text);
    if text != "" && text[0] == '@' {
      LowerConcat("@", text[1..]);
      assert text == "@" + text[1..] && Lower("@") == "@";
    } else if allow && '|' in text {
      var bar := LastBar(text);
      LowerConcat(text[..bar] + "|", text[bar + 1..]);
      LowerConcat(text[..bar], "|");
      assert text == text[..bar] + "|" + text[bar + 1..] && Lower("|") == "|";
    }
  }

  /** A signed operation other than the whole-set ones is accepted if and only if it spells, in any case, the
      text of a rule of its sign: a command, a subcommand, a category, or, to allow only, a first argument of a
      command without subcommands. That rule is what it becomes. */
  lemma AcceptedExactly(t: Table, op: string, r: Rule)
    requires ValidTable(t) && op != "" && (op[0] == '+' || op[0] == '-')
    requires |op| > 1 && op[1] == '@' ==> Lower(op[2..]) != "all"
    ensures Parse(t, op) == Change(r) <==> ValidRule(t, r) && r.allow == (op[0] == '+') && Lower(op[1..]) == RuleText(r)
  {
    hide Parse, ParseTarget, ValidTable, ValidRule, TargetText;
    var allow, text := op[0] == '+', op[1..];
    ParseSigned(t, op);
    ParseTargetValid(t, allow, text);
    ParseKeepsText(t, allow, text);
    if ValidRule(t, r) && r.allow == allow && Lower(text) == RuleText(r) {
      ParseAnyCase(t, allow, text);
      ParseTargetText(t, r);
    }
  }

  /** The whole-set operations and their aliases. */
  lemma WholeSetExactly(t: Table, op: string)
    ensures Parse(t, op) == SetAll(true) <==> SameIgnoringCase(op, "allcommands") || SameIgnoringCase(op, "+@all")
    ensures Parse(t, op) == SetAll(false) <==> SameIgnoringCase(op, "nocommands") || SameIgnoringCase(op, "-@all")
  {
    hide ParseTarget;
    assert Lower("allkeys")[3] == 'k' && Lower("allcommands")[3] == 'c' && Lower("allchannels")[4] == 'h'
           && Lower("allcommands")[4] == 'o';
    assert Lower("~*")[0] == '~' && Lower("&*")[0] == '&' && Lower("resetkeys")[0] == 'r'
           && Lower("resetchannels")[0] == 'r';
    assert Lower("allcommands")[0] == 'a' && Lower("nocommands")[0] == 'n' && Lower("+@all")[0] == '+'
           && Lower("-@all")[0] == '-';
  }
}
