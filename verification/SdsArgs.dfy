/** sdssplitargs(), sdscatrepr() and sdsneedsrepr(): how a line is cut into arguments and how an argument
    is quoted so that it survives. Strings are C strings: the end of the sequence is the terminator. */
module SdsArgs {

  import opened CString

  predicate IsHex(c: char) { '0' <= c <= '9' || 'a' <= c <= 'f' || 'A' <= c <= 'F' }

  function HexValue(c: char): nat
    requires IsHex(c)
  {
    if c <= '9' then c as int - '0' as int
    else if c <= 'F' then c as int - 'A' as int + 10
    else c as int - 'a' as int + 10
  }

  function HexDigit(n: nat): (c: char)
    requires n < 16
    ensures IsHex(c) && HexValue(c) == n
  {
    if n < 10 then ('0' as int + n) as char else ('a' as int + n - 10) as char
  }

  // ----- splitting -----

  datatype Mode = Plain | InDouble | InSingle

  datatype Token = Done(token: string, rest: string) | Unbalanced

  function Unescape(c: char): char {
    match c
    case 'n' => '\n'
    case 'r' => '\r'
    case 't' => '\t'
    case 'b' => 8 as char
    case 'a' => 7 as char
    case _ => c
  }

  /** The token loop, with the token collected so far. */
  function ReadToken(t: string, mode: Mode, current: string): (r: Token)
    ensures r.Done? ==> |r.rest| <= |t|
    ensures r.Done? && mode.Plain? && t != "" ==> |r.rest| < |t|
    ensures r.Done? ==> |r.token| + |r.rest| <= |current| + |t|
    decreases |t|
  {
    match mode
    case Plain =>
      if t == "" then Done(current, "")
      else if t[0] == ' ' || t[0] == '\n' || t[0] == '\r' || t[0] == '\t' then Done(current, t[1..])
      else if t[0] == '"' then ReadToken(t[1..], InDouble, current)
      else if t[0] == '\'' then ReadToken(t[1..], InSingle, current)
      else ReadToken(t[1..], Plain, current + [t[0]])
    case InDouble =>
      if t == "" then Unbalanced
      else if t[0] == '\\' && |t| >= 4 && t[1] == 'x' && IsHex(t[2]) && IsHex(t[3]) then
        ReadToken(t[4..], InDouble, current + [(16 * HexValue(t[2]) + HexValue(t[3])) as char])
      else if t[0] == '\\' && |t| >= 2 then ReadToken(t[2..], InDouble, current + [Unescape(t[1])])
      else if t[0] == '"' then
        (if |t| > 1 && !IsSpace(t[1]) then Unbalanced else Done(current, t[1..]))
      else ReadToken(t[1..], InDouble, current + [t[0]])
    case InSingle =>
      if t == "" then Unbalanced
      else if t[0] == '\\' && |t| >= 2 && t[1] == '\'' then ReadToken(t[2..], InSingle, current + ['\''])
      else if t[0] == '\'' then
        (if |t| > 1 && !IsSpace(t[1]) then Unbalanced else Done(current, t[1..]))
      else ReadToken(t[1..], InSingle, current + [t[0]])
  }

  /** sdssplitargs(): None stands for the NULL of unbalanced quotes. */
  function SplitArgs(t: string): Option<seq<string>>
    decreases |t|
  {
    if t == "" then Some([])
    else if IsSpace(t[0]) then SplitArgs(t[1..])
    else
      match ReadToken(t, Plain, "")
      case Unbalanced => None
      case Done(token, rest) =>
        match SplitArgs(rest)
        case None => None
        case Some(more) => Some([token] + more)
  }

  // ----- quoting -----

  /** How sdscatrepr() writes one byte inside the quotes. */
  function Escape(c: char): string {
    if c == '\\' || c == '"' then ['\\', c]
    else if c == '\n' then "\\n"
    else if c == '\r' then "\\r"
    else if c == '\t' then "\\t"
    else if c == 7 as char then "\\a"
    else if c == 8 as char then "\\b"
    else if IsPrint(c) then [c]
    else if IsByte(c) then ['\\', 'x', HexDigit(c as int / 16), HexDigit(c as int % 16)]
    else [c]
  }

  function EscapeAll(s: string): string {
    if s == "" then "" else Escape(s[0]) + EscapeAll(s[1..])
  }

  function Repr(s: string): string { "\"" + EscapeAll(s) + "\"" }

  predicate NeedsEscape(c: char) { c == '\\' || c == '"' || !IsPrint(c) || IsSpace(c) }

  predicate NeedsRepr(s: string) { exists i :: 0 <= i < |s| && NeedsEscape(s[i]) }

  /** An argument as the manifest writes it. */
  function Quoted(s: string): string { if NeedsRepr(s) then Repr(s) else s }

  predicate EndsToken(rest: string) { rest == "" || rest[0] == ' ' }

  // ----- quoting and splitting undo each other -----

  lemma ReadEscape(c: char, rest: string, current: string)
    requires IsByte(c)
    ensures ReadToken(Escape(c) + rest, InDouble, current) == ReadToken(rest, InDouble, current + [c])
  {
    hide ReadToken, HexDigit;
    var t := Escape(c) + rest;
    if |Escape(c)| == 4 {
      ReadHex(c, rest, current);
    } else if |Escape(c)| == 2 {
      assert t[2..] == rest && t[0] == '\\' && t[1] == Escape(c)[1];
      ReadShort(t, current);
    } else {
      assert t[1..] == rest && t[0] == c;
      ReadOrdinary(t, current);
    }
  }

  lemma ReadOrdinary(t: string, current: string)
    requires t != "" && t[0] != '\\' && t[0] != '"'
    ensures ReadToken(t, InDouble, current) == ReadToken(t[1..], InDouble, current + [t[0]])
  {
  }

  lemma ReadHex(c: char, rest: string, current: string)
    requires IsByte(c)
    ensures ReadToken(['\\', 'x', HexDigit(c as int / 16), HexDigit(c as int % 16)] + rest, InDouble, current)
         == ReadToken(rest, InDouble, current + [c])
  {
    hide HexDigit, HexValue;
    var t := ['\\', 'x', HexDigit(c as int / 16), HexDigit(c as int % 16)] + rest;
    assert t[4..] == rest && t[2] == HexDigit(c as int / 16) && t[3] == HexDigit(c as int % 16);
    assert 16 * (c as int / 16) + c as int % 16 == c as int;
  }

  lemma ReadShort(t: string, current: string)
    requires |t| >= 2 && t[0] == '\\' && t[1] != 'x'
    ensures ReadToken(t, InDouble, current) == ReadToken(t[2..], InDouble, current + [Unescape(t[1])])
  {
    hide HexValue;
  }

  lemma {:induction false} ReadEscapes(s: string, close: string, current: string)
    requires IsBytes(s)
    ensures ReadToken(EscapeAll(s) + close, InDouble, current) == ReadToken(close, InDouble, current + s)
  {
    hide Escape, ReadToken;
    if s == "" {
      assert EscapeAll(s) + close == close && current + s == current;
    } else {
      var tail := EscapeAll(s[1..]) + close;
      assert EscapeAll(s) + close == Escape(s[0]) + tail;
      ReadEscape(s[0], tail, current);
      ReadEscapes(s[1..], close, current + [s[0]]);
      assert current + [s[0]] + s[1..] == current + s;
    }
  }

  lemma ReadClosingQuote(rest: string, current: string)
    requires EndsToken(rest)
    ensures ReadToken("\"" + rest, InDouble, current) == Done(current, rest)
  {
    var t := "\"" + rest;
    assert t[1..] == rest;
    assert |t| > 1 ==> t[1] == rest[0];
  }

  lemma {:induction false} ReadPlain(s: string, rest: string, current: string)
    requires !NeedsRepr(s) && '\'' !in s && EndsToken(rest)
    ensures ReadToken(s + rest, Plain, current) == Done(current + s, if rest == "" then "" else rest[1..])
  {
    var t := s + rest;
    if s == "" {
      assert t == rest && current + s == current;
    } else {
      assert t[1..] == s[1..] + rest;
      assert !NeedsEscape(s[0]);
      ReadPlain(s[1..], rest, current + [s[0]]);
      assert current + [s[0]] + s[1..] == current + s;
    }
  }

  /** A quoted argument followed by a space or by nothing is read back as one argument. */
  lemma SplitQuoted(s: string, rest: string)
    requires s != "" && IsBytes(s) && EndsToken(rest)
    requires NeedsRepr(s) || '\'' !in s
    ensures SplitArgs(Quoted(s) + rest)
         == match SplitArgs(rest)
            case None => None
            case Some(more) => Some([s] + more)
  {
    hide EscapeAll, ReadToken, SplitArgs;
    var t := Quoted(s) + rest;
    if NeedsRepr(s) {
      ReadRepr(s, rest);
      SplitStep(t, s, rest);
    } else {
      ReadPlain(s, rest, "");
      assert "" + s == s;
      assert !NeedsEscape(s[0]) && t[0] == s[0];
      SplitStep(t, s, if rest == "" then "" else rest[1..]);
      SplitAfterToken(rest);
    }
  }

  lemma SplitStep(t: string, token: string, rest: string)
    requires t != "" && !IsSpace(t[0]) && ReadToken(t, Plain, "") == Done(token, rest)
    ensures SplitArgs(t)
         == match SplitArgs(rest)
            case None => None
            case Some(more) => Some([token] + more)
  {
  }

  lemma SplitAfterToken(rest: string)
    requires EndsToken(rest)
    ensures rest != "" ==> SplitArgs(rest) == SplitArgs(rest[1..])
  {
  }

  lemma ReadRepr(s: string, rest: string)
    requires IsBytes(s) && EndsToken(rest)
    ensures ReadToken(Repr(s) + rest, Plain, "") == Done(s, rest)
  {
    hide EscapeAll;
    var t, close := Repr(s) + rest, "\"" + rest;
    assert t[1..] == EscapeAll(s) + close;
    OpenDouble(t, "");
    hide ReadToken;
    ReadEscapes(s, close, "");
    ReadClosingQuote(rest, s);
    assert "" + s == s;
  }

  lemma {:induction false} ReadUpToQuote(t: string, i: nat, current: string)
    requires i < |t| && t[i] == '\'' && !NeedsRepr(t[..i]) && '\'' !in t[..i]
    ensures ReadToken(t, Plain, current) == ReadToken(t[i + 1..], InSingle, current + t[..i])
    decreases i
  {
    hide ReadToken;
    if i == 0 {
      assert current + t[..0] == current;
      OpenSingle(t, current);
    } else {
      var head := t[..i];
      assert t[1..][..i - 1] == head[1..] && head[0] == t[0];
      PlainTail(head);
      ReadUpToQuote(t[1..], i - 1, current + [t[0]]);
      assert current + [t[0]] + t[1..][..i - 1] == current + head;
      assert t[1..][i..] == t[i + 1..];
      ReadPlainChar(t, current);
    }
  }

  lemma OpenDouble(t: string, current: string)
    requires t != "" && t[0] == '"'
    ensures ReadToken(t, Plain, current) == ReadToken(t[1..], InDouble, current)
  {
  }

  lemma OpenSingle(t: string, current: string)
    requires t != "" && t[0] == '\''
    ensures ReadToken(t, Plain, current) == ReadToken(t[1..], InSingle, current)
  {
  }

  lemma ReadPlainChar(t: string, current: string)
    requires t != "" && !NeedsEscape(t[0]) && t[0] != '\''
    ensures ReadToken(t, Plain, current) == ReadToken(t[1..], Plain, current + [t[0]])
  {
  }

  lemma PlainTail(s: string)
    requires s != "" && !NeedsRepr(s) && '\'' !in s
    ensures !NeedsEscape(s[0]) && s[0] != '\'' && !NeedsRepr(s[1..]) && '\'' !in s[1..]
  {
    hide NeedsEscape;
    forall k | 0 <= k < |s| - 1
      ensures !NeedsEscape(s[1..][k])
    {
      assert !NeedsEscape(s[k + 1]);
    }
  }

  function FirstQuote(s: string): (i: nat)
    requires '\'' in s
    ensures i < |s| && s[i] == '\'' && '\'' !in s[..i]
  {
    if s[0] == '\'' then 0
    else
      var i := 1 + FirstQuote(s[1..]);
      assert s[..i] == [s[0]] + s[1..][..i - 1];
      i
  }

  /** What the splitter makes of the rest of a word behind a single quote: the quote must be closed by the
      last character. */
  function SingleToken(u: string, current: string): Option<string> {
    if u == "" then None
    else if u[0] == '\'' then (if |u| == 1 then Some(current) else None)
    else SingleToken(u[1..], current + [u[0]])
  }

  lemma {:induction false} SingleTokenLength(u: string, current: string)
    ensures var r := SingleToken(u, current); r.Some? ==> |r.value| + 1 == |current| + |u|
  {
    if u != "" && u[0] != '\'' { SingleTokenLength(u[1..], current + [u[0]]); }
  }

  lemma {:induction false} NeverClosed(t: string, current: string)
    requires '\'' !in t
    ensures ReadToken(t, InSingle, current) == Unbalanced
  {
    if t != "" { NeverClosed(t[1..], current + [t[0]]); }
  }

  lemma PlainPart(s: string, i: nat, j: nat)
    requires !NeedsRepr(s) && i <= j <= |s|
    ensures !NeedsRepr(s[i..j])
  {
    hide NeedsEscape;
    forall k | 0 <= k < j - i
      ensures !NeedsEscape(s[i..j][k])
    {
      assert !NeedsEscape(s[i + k]);
    }
  }

  lemma {:induction false} ReadSingle(u: string, rest: string, current: string)
    requires !NeedsRepr(u) && EndsToken(rest) && '\'' !in rest
    ensures ReadToken(u + rest, InSingle, current)
         == match SingleToken(u, current)
            case None => Unbalanced
            case Some(x) => Done(x, rest)
    decreases |u|
  {
    var t := u + rest;
    if u == "" {
      assert t == rest;
      NeverClosed(rest, current);
    } else {
      assert t[1..] == u[1..] + rest && t[0] == u[0];
      assert !NeedsEscape(u[0]);
      if u[0] == '\'' {
        assert |u| > 1 ==> !NeedsEscape(u[1]) && t[1] == u[1];
        assert |u| == 1 ==> t[1..] == rest;
      } else {
        PlainPart(u, 1, |u|);
        ReadSingle(u[1..], rest, current + [u[0]]);
      }
    }
  }

  /** The argument that comes back for `s`, if any: sdsneedsrepr() does not ask for quotes around a single
      quote, and the splitter then takes that quote for an opening one. */
  function Reread(s: string): Option<string> {
    if NeedsRepr(s) || '\'' !in s then Some(s)
    else SingleToken(s[FirstQuote(s) + 1..], s[..FirstQuote(s)])
  }

  lemma RereadSame(s: string)
    ensures Reread(s) == Some(s) <==> NeedsRepr(s) || '\'' !in s
  {
    if !NeedsRepr(s) && '\'' in s {
      SingleTokenLength(s[FirstQuote(s) + 1..], s[..FirstQuote(s)]);
    }
  }

  /** A quoted argument in front of arguments without quotes is read as Reread() says. */
  lemma SplitReread(s: string, rest: string)
    requires s != "" && IsBytes(s) && EndsToken(rest) && '\'' !in rest
    ensures SplitArgs(Quoted(s) + rest)
         == match Reread(s)
            case None => None
            case Some(x) =>
              match SplitArgs(rest)
              case None => None
              case Some(more) => Some([x] + more)
  {
    hide ReadToken, SplitArgs, IsBytes, EscapeAll, NeedsRepr, FirstQuote;
    if NeedsRepr(s) || '\'' !in s {
      SplitQuoted(s, rest);
    } else {
      var i := FirstQuote(s);
      FirstQuoteIs(s);
      var t := s + rest;
      assert t[..i] == s[0..i] && t[i + 1..] == s[i + 1..|s|] + rest && t[i] == '\'' && s[i + 1..|s|] == s[i + 1..];
      PlainPart(s, 0, i);
      PlainPart(s, i + 1, |s|);
      ReadUpToQuote(t, i, "");
      assert "" + t[..i] == s[..i];
      ReadSingle(s[i + 1..], rest, s[..i]);
      NoLeadingSpace(s, rest);
      var r := SingleToken(s[i + 1..], s[..i]);
      if r.Some? { SplitStep(t, r.value, rest); } else { SplitUnbalanced(t); }
    }
  }

  lemma FirstQuoteIs(s: string)
    requires '\'' in s
    ensures var i := FirstQuote(s); i < |s| && s[i] == '\'' && '\'' !in s[..i]
  {
  }

  lemma NoLeadingSpace(s: string, rest: string)
    requires s != "" && !NeedsRepr(s)
    ensures !IsSpace((s + rest)[0])
  {
    assert !NeedsEscape(s[0]);
  }

  lemma SplitUnbalanced(t: string)
    requires t != "" && !IsSpace(t[0]) && ReadToken(t, Plain, "") == Unbalanced
    ensures SplitArgs(t) == None
  {
  }

  /** Exactly when an argument survives. */
  lemma QuotedSurvives(s: string)
    requires s != "" && IsBytes(s)
    ensures SplitArgs(Quoted(s)) == Some([s]) <==> NeedsRepr(s) || '\'' !in s
  {
    hide Quoted, Reread, IsBytes, NeedsRepr;
    assert Quoted(s) + "" == Quoted(s);
    SplitReread(s, "");
    RereadSame(s);
    assert SplitArgs("") == Some([]);
    if Reread(s).Some? {
      var x := Reread(s).value;
      assert [x] + [] == [x];
      assert [x] == [s] ==> [x][0] == s;
    }
  }

  /** Words, each after a space. */
  function Spaced(words: seq<string>): string {
    if words == [] then "" else " " + Quoted(words[0]) + Spaced(words[1..])
  }

  predicate Survives(s: string) { s != "" && IsBytes(s) && (NeedsRepr(s) || '\'' !in s) }

  lemma {:induction false} SplitSpaced(words: seq<string>)
    requires forall i :: 0 <= i < |words| ==> Survives(words[i])
    ensures SplitArgs(Spaced(words)) == Some(words)
  {
    hide Quoted, Survives;
    if words != [] {
      var tail := Quoted(words[0]) + Spaced(words[1..]);
      assert Spaced(words) == " " + tail;
      SplitSpaced(words[1..]);
      SplitWord(words[0], Spaced(words[1..]));
      assert (" " + tail)[1..] == tail;
      assert [words[0]] + words[1..] == words;
    }
  }

  lemma SplitWord(s: string, rest: string)
    requires Survives(s) && EndsToken(rest)
    ensures SplitArgs(Quoted(s) + rest)
         == match SplitArgs(rest)
            case None => None
            case Some(more) => Some([s] + more)
  {
    SplitQuoted(s, rest);
  }

  lemma {:induction false} SpacedAppend(a: seq<string>, b: seq<string>)
    ensures Spaced(a + b) == Spaced(a) + Spaced(b)
  {
    hide Quoted;
    if a == [] {
      assert a + b == b;
    } else {
      assert (a + b)[1..] == a[1..] + b;
      SpacedAppend(a[1..], b);
    }
  }

  lemma SpacedTwo(a: string, b: string)
    ensures Spaced([a, b]) == " " + Quoted(a) + " " + Quoted(b)
  {
    hide Quoted;
    assert [a, b][1..] == [b] && [b][1..] == [];
    assert Spaced([b]) == " " + Quoted(b) + "";
  }
}
